/** What check_version_control promises, proved about the Check model:
    how statuses are classified, what the two lists hold and in which
    order, and when the verdict is a pass. */
module CheckProperties {
  import opened Wrappers
  import opened Oracles
  import opened Check
  import SupportingCode

  // ---------------------------------------------------------------------
  // Classification

  /** A status is staged exactly when it has a single bit and that bit is
      an index bit. */
  lemma StagedIsExactlyOneIndexBit(s: Status)
    ensures Classify(s) == Staged <==> |s| == 1 && forall f :: f in s ==> IsIndexFlag(f)
  {
    if Classify(s) == Staged {
      assert s == {IndexNew} || s == {IndexModified} || s == {IndexDeleted}
        || s == {IndexRenamed} || s == {IndexTypechange};
    }
    if |s| == 1 && forall f :: f in s ==> IsIndexFlag(f) {
      var f :| f in s;
      var others := s - {f};
      assert s == others + {f};
      assert |others| == 0;
      assert s == {f};
      assert IsIndexFlag(f);
      assert s in StagedStatuses;
    }
  }

  /** A status with two bits or more, e.g. staged and then modified again
      in the working tree, is dirty and never staged. */
  lemma CombinedStatusIsDirty(s: Status, f: Flag, g: Flag)
    requires f in s && g in s && f != g
    ensures Classify(s) == Dirty
  {
    assert s != Current;
    assert s !in StagedStatuses;
  }

  // ---------------------------------------------------------------------
  // The two lists

  /** An allowed category is never reported. */
  lemma {:induction false} AllowedListIsEmpty(entries: seq<StatusEntry>, opts: CheckOptions)
    ensures opts.allowStaged ==> StagedFiles(entries, opts) == []
    ensures opts.allowDirty ==> DirtyFiles(entries, opts) == []
  {
    if entries != [] {
      AllowedListIsEmpty(entries[..|entries| - 1], opts);
    }
  }

  /** The staged list depends on the options only through allowStaged. */
  lemma {:induction false} StagedFilesIgnoreOtherOptions(entries: seq<StatusEntry>, o1: CheckOptions, o2: CheckOptions)
    requires o1.allowStaged == o2.allowStaged
    ensures StagedFiles(entries, o1) == StagedFiles(entries, o2)
  {
    if entries != [] {
      StagedFilesIgnoreOtherOptions(entries[..|entries| - 1], o1, o2);
    }
  }

  /** The dirty list depends on the options only through allowDirty. */
  lemma {:induction false} DirtyFilesIgnoreOtherOptions(entries: seq<StatusEntry>, o1: CheckOptions, o2: CheckOptions)
    requires o1.allowDirty == o2.allowDirty
    ensures DirtyFiles(entries, o1) == DirtyFiles(entries, o2)
  {
    if entries != [] {
      DirtyFilesIgnoreOtherOptions(entries[..|entries| - 1], o1, o2);
    }
  }

  /** A path is in the staged list exactly when staged files are not
      allowed and some entry with that path has a staged status. */
  lemma {:induction false} StagedMembership(entries: seq<StatusEntry>, opts: CheckOptions, p: string)
    ensures p in StagedFiles(entries, opts) <==>
      !opts.allowStaged &&
      exists i :: 0 <= i < |entries| && entries[i].path == Some(p) && Classify(entries[i].status) == Staged
  {
    if entries != [] {
      var n := |entries| - 1;
      var prefix := entries[..n];
      StagedMembership(prefix, opts, p);
      if exists i :: 0 <= i < |prefix| && prefix[i].path == Some(p) && Classify(prefix[i].status) == Staged {
        var i :| 0 <= i < |prefix| && prefix[i].path == Some(p) && Classify(prefix[i].status) == Staged;
        assert entries[i] == prefix[i];
      }
      if exists i :: 0 <= i < |entries| && entries[i].path == Some(p) && Classify(entries[i].status) == Staged {
        var i :| 0 <= i < |entries| && entries[i].path == Some(p) && Classify(entries[i].status) == Staged;
        if i < n {
          assert prefix[i] == entries[i];
        }
      }
    }
  }

  /** A path is in the dirty list exactly when dirty files are not allowed
      and some entry with that path has a dirty status. */
  lemma {:induction false} DirtyMembership(entries: seq<StatusEntry>, opts: CheckOptions, p: string)
    ensures p in DirtyFiles(entries, opts) <==>
      !opts.allowDirty &&
      exists i :: 0 <= i < |entries| && entries[i].path == Some(p) && Classify(entries[i].status) == Dirty
  {
    if entries != [] {
      var n := |entries| - 1;
      var prefix := entries[..n];
      DirtyMembership(prefix, opts, p);
      if exists i :: 0 <= i < |prefix| && prefix[i].path == Some(p) && Classify(prefix[i].status) == Dirty {
        var i :| 0 <= i < |prefix| && prefix[i].path == Some(p) && Classify(prefix[i].status) == Dirty;
        assert entries[i] == prefix[i];
      }
      if exists i :: 0 <= i < |entries| && entries[i].path == Some(p) && Classify(entries[i].status) == Dirty {
        var i :| 0 <= i < |entries| && entries[i].path == Some(p) && Classify(entries[i].status) == Dirty;
        if i < n {
          assert prefix[i] == entries[i];
        }
      }
    }
  }

  /** `files` can be obtained from the paths of `entries` by deleting some
      of them: the files are reported in enumeration order. */
  ghost predicate InEnumerationOrder(files: seq<string>, entries: seq<StatusEntry>)
    decreases |entries|
  {
    if entries == [] then files == []
    else
      var last := entries[|entries| - 1];
      var rest := entries[..|entries| - 1];
      || (files != [] && last.path == Some(files[|files| - 1])
          && InEnumerationOrder(files[..|files| - 1], rest))
      || InEnumerationOrder(files, rest)
  }

  /** Both lists keep the enumeration's order. */
  lemma {:induction false} ListsInEnumerationOrder(entries: seq<StatusEntry>, opts: CheckOptions)
    ensures InEnumerationOrder(StagedFiles(entries, opts), entries)
    ensures InEnumerationOrder(DirtyFiles(entries, opts), entries)
  {
    if entries != [] {
      var rest := entries[..|entries| - 1];
      ListsInEnumerationOrder(rest, opts);
      var staged := StagedFiles(entries, opts);
      if staged != StagedFiles(rest, opts) {
        assert staged[..|staged| - 1] == StagedFiles(rest, opts);
      }
      var dirty := DirtyFiles(entries, opts);
      if dirty != DirtyFiles(rest, opts) {
        assert dirty[..|dirty| - 1] == DirtyFiles(rest, opts);
      }
    }
  }

  /** `files` can be obtained from the paths of `entries` by deleting some
      of them, and every path kept comes from an entry of class `c`. */
  ghost predicate SubsequenceOfClass(files: seq<string>, entries: seq<StatusEntry>, c: StatusClass)
    decreases |entries|
  {
    if entries == [] then files == []
    else
      var last := entries[|entries| - 1];
      var rest := entries[..|entries| - 1];
      || (files != [] && last.path == Some(files[|files| - 1]) && Classify(last.status) == c
          && SubsequenceOfClass(files[..|files| - 1], rest, c))
      || SubsequenceOfClass(files, rest, c)
  }

  /** Taking paths only from entries of class `c` is a special case of
      taking them from any entry: the class-aware order implies the plain one. */
  lemma {:induction false} SubsequenceOfClassIsInEnumerationOrder(files: seq<string>, entries: seq<StatusEntry>, c: StatusClass)
    requires SubsequenceOfClass(files, entries, c)
    ensures InEnumerationOrder(files, entries)
  {
    if entries != [] {
      var last := entries[|entries| - 1];
      var rest := entries[..|entries| - 1];
      if files != [] && last.path == Some(files[|files| - 1]) && Classify(last.status) == c
         && SubsequenceOfClass(files[..|files| - 1], rest, c) {
        SubsequenceOfClassIsInEnumerationOrder(files[..|files| - 1], rest, c);
      } else {
        SubsequenceOfClassIsInEnumerationOrder(files, rest, c);
      }
    }
  }

  /** How many entries have a path and a status of class `c`. */
  ghost function CountOfClass(entries: seq<StatusEntry>, c: StatusClass): nat {
    if entries == [] then 0
    else
      var last := entries[|entries| - 1];
      CountOfClass(entries[..|entries| - 1], c) + if last.path.Some? && Classify(last.status) == c then 1 else 0
  }

  /** A subsequence of class `c` is no longer than the number of such entries. */
  lemma {:induction false} SubsequenceOfClassBounded(files: seq<string>, entries: seq<StatusEntry>, c: StatusClass)
    requires SubsequenceOfClass(files, entries, c)
    ensures |files| <= CountOfClass(entries, c)
  {
    if entries != [] {
      var last := entries[|entries| - 1];
      var rest := entries[..|entries| - 1];
      if files != [] && last.path == Some(files[|files| - 1]) && Classify(last.status) == c
         && SubsequenceOfClass(files[..|files| - 1], rest, c) {
        SubsequenceOfClassBounded(files[..|files| - 1], rest, c);
      } else {
        SubsequenceOfClassBounded(files, rest, c);
      }
    }
  }

  /** A subsequence of class `c` that is as long as the number of such
      entries skips none of them: there is only one, the paths of those
      entries in enumeration order, each entry once. */
  lemma {:induction false} FullSubsequenceOfClassIsUnique(f1: seq<string>, f2: seq<string>, entries: seq<StatusEntry>, c: StatusClass)
    requires SubsequenceOfClass(f1, entries, c) && |f1| == CountOfClass(entries, c)
    requires SubsequenceOfClass(f2, entries, c) && |f2| == CountOfClass(entries, c)
    ensures f1 == f2
  {
    if entries != [] {
      var last := entries[|entries| - 1];
      var rest := entries[..|entries| - 1];
      if last.path.Some? && Classify(last.status) == c {
        if SubsequenceOfClass(f1, rest, c) {
          SubsequenceOfClassBounded(f1, rest, c);
        }
        if SubsequenceOfClass(f2, rest, c) {
          SubsequenceOfClassBounded(f2, rest, c);
        }
        FullSubsequenceOfClassIsUnique(f1[..|f1| - 1], f2[..|f2| - 1], rest, c);
        assert f1 == f1[..|f1| - 1] + [f1[|f1| - 1]];
        assert f2 == f2[..|f2| - 1] + [f2[|f2| - 1]];
      } else {
        FullSubsequenceOfClassIsUnique(f1, f2, rest, c);
      }
    }
  }

  /** Unless its category is allowed, each list is the full subsequence of
      its class: one path per entry of that class, none skipped, in
      enumeration order. */
  lemma {:induction false} ListsAreTheirClassEntries(entries: seq<StatusEntry>, opts: CheckOptions)
    ensures !opts.allowStaged ==>
      SubsequenceOfClass(StagedFiles(entries, opts), entries, Staged)
      && |StagedFiles(entries, opts)| == CountOfClass(entries, Staged)
    ensures !opts.allowDirty ==>
      SubsequenceOfClass(DirtyFiles(entries, opts), entries, Dirty)
      && |DirtyFiles(entries, opts)| == CountOfClass(entries, Dirty)
  {
    if entries != [] {
      var rest := entries[..|entries| - 1];
      ListsAreTheirClassEntries(rest, opts);
      var staged := StagedFiles(entries, opts);
      if staged != StagedFiles(rest, opts) {
        assert staged[..|staged| - 1] == StagedFiles(rest, opts);
      }
      var dirty := DirtyFiles(entries, opts);
      if dirty != DirtyFiles(rest, opts) {
        assert dirty[..|dirty| - 1] == DirtyFiles(rest, opts);
      }
    }
  }

  /** The lists are built entry by entry: the lists of a concatenation are
      the concatenations of the lists. */
  lemma {:induction false} ListsDistribute(a: seq<StatusEntry>, b: seq<StatusEntry>, opts: CheckOptions)
    ensures StagedFiles(a + b, opts) == StagedFiles(a, opts) + StagedFiles(b, opts)
    ensures DirtyFiles(a + b, opts) == DirtyFiles(a, opts) + DirtyFiles(b, opts)
  {
    if b == [] {
      assert a + b == a;
    } else {
      var n := |b| - 1;
      assert (a + b)[..|a + b| - 1] == a + b[..n];
      ListsDistribute(a, b[..n], opts);
    }
  }

  /** A single entry lands in at most one list. */
  lemma EntryInAtMostOneList(e: StatusEntry, opts: CheckOptions)
    ensures StagedFiles([e], opts) == [] || DirtyFiles([e], opts) == []
    ensures |StagedFiles([e], opts)| + |DirtyFiles([e], opts)| <= 1
  {
  }

  /** So, over the whole enumeration, the two lists together are no longer
      than the enumeration. */
  lemma {:induction false} ListsTogetherBounded(entries: seq<StatusEntry>, opts: CheckOptions)
    ensures |StagedFiles(entries, opts)| + |DirtyFiles(entries, opts)| <= |entries|
  {
    if entries != [] {
      var n := |entries| - 1;
      ListsTogetherBounded(entries[..n], opts);
      ListsDistribute(entries[..n], [entries[n]], opts);
      assert entries[..n] + [entries[n]] == entries;
      EntryInAtMostOneList(entries[n], opts);
    }
  }

  // ---------------------------------------------------------------------
  // The verdict

  /** An entry the options permit: no path, unchanged, or in an allowed
      category. */
  ghost predicate Permitted(e: StatusEntry, opts: CheckOptions) {
    e.path.None? ||
    match Classify(e.status)
    case Unchanged => true
    case Staged => opts.allowStaged
    case Dirty => opts.allowDirty
  }

  /** Both lists are empty exactly when every entry is permitted. */
  lemma ListsEmptyIffAllPermitted(entries: seq<StatusEntry>, opts: CheckOptions)
    ensures (StagedFiles(entries, opts) == [] && DirtyFiles(entries, opts) == []) <==>
      forall i :: 0 <= i < |entries| ==> Permitted(entries[i], opts)
  {
    if forall i :: 0 <= i < |entries| ==> Permitted(entries[i], opts) {
      var staged := StagedFiles(entries, opts);
      if staged != [] {
        StagedMembership(entries, opts, staged[0]);
        assert false;
      }
      var dirty := DirtyFiles(entries, opts);
      if dirty != [] {
        DirtyMembership(entries, opts, dirty[0]);
        assert false;
      }
    } else {
      var i :| 0 <= i < |entries| && !Permitted(entries[i], opts);
      var p := entries[i].path.value;
      StagedMembership(entries, opts, p);
      DirtyMembership(entries, opts, p);
    }
  }

  /** With allow_no_vcs nothing is checked and the answer is a pass,
      whatever the environment. */
  lemma AllowNoVcsAlwaysPasses(path: Path, opts: CheckOptions, env: Environment)
    requires opts.allowNoVcs
    ensures CheckOutcome(path, opts, env) == Ok(())
  {
  }

  /** Detection precedes policy: without a repository the answer is NoVcs
      whatever the other flags. */
  lemma UndetectedIsNoVcs(path: Path, opts: CheckOptions, env: Environment)
    requires !opts.allowNoVcs && !SupportingCode.ExistingVcsRepo(path, env)
    ensures CheckOutcome(path, opts, env) == Err(NoVcs)
  {
  }

  /** With both staged and dirty files allowed the enumeration is never
      looked at: the answer is the same whatever it would have returned,
      an error included; it is a pass whenever a repository is detected
      (by git or by hg), and NoVcs otherwise. */
  lemma AllowBothSkipsEnumeration(path: Path, opts: CheckOptions, env: Environment, statuses: Result<seq<StatusEntry>, string>)
    requires opts.allowDirty && opts.allowStaged
    ensures env.git.Some? ==>
      CheckOutcome(path, opts, env) == CheckOutcome(path, opts, env.(git := Some(env.git.value.(statuses := statuses))))
    ensures CheckOutcome(path, opts, env) == Ok(()) || CheckOutcome(path, opts, env) == Err(NoVcs)
    ensures SupportingCode.ExistingVcsRepo(path, env) ==> CheckOutcome(path, opts, env) == Ok(())
  {
  }

  /** A repository found only by hg gets no file-level check: it passes. */
  lemma MercurialOnlyPasses(path: Path, opts: CheckOptions, env: Environment)
    requires env.git.None?
    ensures CheckOutcome(path, opts, env) ==
      if opts.allowNoVcs || SupportingCode.HgDiscover(env.hg).Ok? then Ok(()) else Err(NoVcs)
  {
  }

  /** A failing status enumeration surfaces as a tooling error. */
  lemma EnumerationErrorPropagates(path: Path, opts: CheckOptions, env: Environment, message: string)
    requires !opts.allowNoVcs && SupportingCode.ExistingVcsRepo(path, env)
    requires !(opts.allowDirty && opts.allowStaged)
    requires env.git.Some? && env.git.value.statuses == Err(message)
    ensures CheckOutcome(path, opts, env) == Err(GitError(message))
  {
  }

  /** In a detected git repository whose status enumeration succeeds, the
      check passes exactly when every entry is permitted. */
  lemma PassesIffEveryEntryPermitted(path: Path, opts: CheckOptions, env: Environment, entries: seq<StatusEntry>)
    requires !opts.allowNoVcs && SupportingCode.ExistingVcsRepo(path, env)
    requires env.git.Some? && env.git.value.statuses == Ok(entries)
    ensures CheckOutcome(path, opts, env) == Ok(()) <==>
      forall i :: 0 <= i < |entries| ==> Permitted(entries[i], opts)
  {
    ListsEmptyIffAllPermitted(entries, opts);
    if opts.allowDirty && opts.allowStaged {
      AllowedListIsEmpty(entries, opts);
    }
  }

  /** A NotAllowedFilesFound failure comes from a detected git repository
      whose enumeration succeeded; at least one list is non-empty; an
      allowed category's list is empty; otherwise a list is the full
      subsequence of its class (one path per entry of that class, in
      enumeration order), which FullSubsequenceOfClassIsUnique shows to
      determine it. */
  lemma NotAllowedFilesFoundDescribesEntries(path: Path, opts: CheckOptions, env: Environment, dirty: seq<string>, staged: seq<string>)
    requires CheckOutcome(path, opts, env) == Err(NotAllowedFilesFound(dirty, staged))
    ensures !opts.allowNoVcs && SupportingCode.ExistingVcsRepo(path, env)
    ensures env.git.Some? && env.git.value.statuses.Ok?
    ensures dirty != [] || staged != []
    ensures opts.allowDirty ==> dirty == []
    ensures opts.allowStaged ==> staged == []
    ensures var entries := env.git.value.statuses.value;
      && InEnumerationOrder(dirty, entries)
      && InEnumerationOrder(staged, entries)
      && (forall p :: p in staged <==>
            (!opts.allowStaged &&
             exists i :: 0 <= i < |entries| && entries[i].path == Some(p) && Classify(entries[i].status) == Staged))
      && (forall p :: p in dirty <==>
            (!opts.allowDirty &&
             exists i :: 0 <= i < |entries| && entries[i].path == Some(p) && Classify(entries[i].status) == Dirty))
      && (!opts.allowStaged ==>
            SubsequenceOfClass(staged, entries, Staged) && |staged| == CountOfClass(entries, Staged))
      && (!opts.allowDirty ==>
            SubsequenceOfClass(dirty, entries, Dirty) && |dirty| == CountOfClass(entries, Dirty))
  {
    var entries := env.git.value.statuses.value;
    AllowedListIsEmpty(entries, opts);
    ListsInEnumerationOrder(entries, opts);
    ListsAreTheirClassEntries(entries, opts);
    forall p
      ensures p in staged <==>
        (!opts.allowStaged &&
         exists i :: 0 <= i < |entries| && entries[i].path == Some(p) && Classify(entries[i].status) == Staged)
      ensures p in dirty <==>
        (!opts.allowDirty &&
         exists i :: 0 <= i < |entries| && entries[i].path == Some(p) && Classify(entries[i].status) == Dirty)
    {
      StagedMembership(entries, opts, p);
      DirtyMembership(entries, opts, p);
    }
  }

  /** Allowing more never turns a pass into a failure. */
  lemma MoreAllowedNeverFails(path: Path, o1: CheckOptions, o2: CheckOptions, env: Environment)
    requires o1.allowDirty ==> o2.allowDirty
    requires o1.allowNoVcs ==> o2.allowNoVcs
    requires o1.allowStaged ==> o2.allowStaged
    requires CheckOutcome(path, o1, env) == Ok(())
    ensures CheckOutcome(path, o2, env) == Ok(())
  {
    if !o2.allowNoVcs && !(o2.allowDirty && o2.allowStaged) && env.git.Some? {
      var entries := env.git.value.statuses.value;
      if o2.allowStaged {
        AllowedListIsEmpty(entries, o2);
      } else {
        StagedFilesIgnoreOtherOptions(entries, o1, o2);
      }
      if o2.allowDirty {
        AllowedListIsEmpty(entries, o2);
      } else {
        DirtyFilesIgnoreOtherOptions(entries, o1, o2);
      }
    }
  }

  /** The default options are the strictest: whatever passes with them
      passes with any options. */
  lemma DefaultIsStrictest(path: Path, opts: CheckOptions, env: Environment)
    requires CheckOutcome(path, New(), env) == Ok(())
    ensures CheckOutcome(path, opts, env) == Ok(())
  {
    MoreAllowedNeverFails(path, New(), opts, env);
  }

  /** A path outside any repository: NoVcs with the default options, a
      pass once allow_no_vcs is set. */
  lemma NonExistentFolder(path: Path, env: Environment)
    requires env.git.None? && !(env.hg.Finished? && env.hg.exitCode == Some(0))
    ensures CheckOutcome(path, New(), env) == Err(NoVcs)
    ensures CheckOutcome(path, New().(allowNoVcs := true), env) == Ok(())
  {
  }

  /** A file staged and then modified again is reported as dirty, not
      staged; with dirty files allowed it is not reported at all. */
  lemma StagedThenModifiedIsDirty(path: Path, hg: ProcessOutcome)
    ensures var entries := [
        StatusEntry(Some("b"), {IndexNew}),
        StatusEntry(Some("c"), {IndexModified, WtModified}),
        StatusEntry(None, {WtNew}),
        StatusEntry(Some("d"), Current)];
      var env := Environment(Some(GitRepository(Some(path), Ok(false), Ok(entries))), hg);
      && CheckOutcome(path, New(), env) == Err(NotAllowedFilesFound(["c"], ["b"]))
      && CheckOutcome(path, New().(allowDirty := true), env) == Err(NotAllowedFilesFound([], ["b"]))
  {
    var entries := [
        StatusEntry(Some("b"), {IndexNew}),
        StatusEntry(Some("c"), {IndexModified, WtModified}),
        StatusEntry(None, {WtNew}),
        StatusEntry(Some("d"), Current)];
    CombinedStatusIsDirty({IndexModified, WtModified}, IndexModified, WtModified);
    assert entries[..3] == entries[..4][..3] && entries[..4] == entries;
    assert entries[..2] == entries[..3][..2];
    assert entries[..1] == entries[..2][..1];
    assert entries[..1][..0] == [];
    assert Classify({IndexNew}) == Staged;
    assert Classify(Current) == Unchanged;
    var strict := New();
    assert StagedFiles(entries[..1], strict) == ["b"] && DirtyFiles(entries[..1], strict) == [];
    assert StagedFiles(entries[..2], strict) == ["b"] && DirtyFiles(entries[..2], strict) == ["c"];
    assert StagedFiles(entries[..3], strict) == ["b"] && DirtyFiles(entries[..3], strict) == ["c"];
    assert StagedFiles(entries, strict) == ["b"];
    assert DirtyFiles(entries, strict) == ["c"];
    StagedFilesIgnoreOtherOptions(entries, strict, strict.(allowDirty := true));
    AllowedListIsEmpty(entries, strict.(allowDirty := true));
  }
}
