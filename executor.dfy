/**
 * The executing half of file/file.go: CopyFilesTo, DeleteFiles and
 * DeleteFilesCreatedBefore, run against the in-memory FileSystem.
 */
module Executor {
  import opened Wrappers
  import opened GoLib
  import opened Dates
  import opened Model
  import opened Disk
  import opened Planner

  // ---------------------------------------------------------------- copying

  /** What CopyFilesTo does for one file: read source, make bucket, write dest. */
  datatype CopyStep = CopyStep(source: string, bucket: string, dest: string)

  /** The step for file i: the same bucket and the same renamed destination PrepareCopy plans. */
  function Step(targetDir: string, files: seq<FileInfo>, i: nat): CopyStep
    requires i < |files|
  {
    CopyStep(files[i].path, Bucket(targetDir, files[i].creationDate), Destination(targetDir, files, i))
  }

  function CopySteps(targetDir: string, files: seq<FileInfo>): seq<CopyStep> {
    seq(|files|, i requires 0 <= i < |files| => Step(targetDir, files, i))
  }

  /** The part of the filesystem a copy changes: the file contents and the directories. */
  datatype Store = Store(contents: map<string, Bytes>, dirs: set<string>)

  /** The store after some steps, and the error that stopped them, if any. */
  datatype Outcome = Outcome(store: Store, err: Option<IoError>)

  /**
   * One iteration of CopyFilesTo's loop: ReadFile the source, MkdirAll the bucket and
   * WriteFile the destination, stopping at the first of them that fails.
   */
  function CopyOne(st: Store, faults: Faults, step: CopyStep): Outcome {
    if !Readable(st.contents, faults, step.source) then Outcome(st, Some(ReadError(step.source)))
    else if step.bucket in faults.mkdirFails then Outcome(st, Some(MkdirError(step.bucket)))
    else
      var made := st.dirs + {step.bucket};
      if step.dest in faults.writeFails then Outcome(Store(st.contents, made), Some(WriteError(step.dest)))
      else Outcome(Store(st.contents[step.dest := st.contents[step.source]], made), None)
  }

  /** The steps in order; the first error ends the run and no later step is tried. */
  function RunCopies(st: Store, faults: Faults, steps: seq<CopyStep>): Outcome
    decreases |steps|
  {
    if steps == [] then Outcome(st, None)
    else
      var o := CopyOne(st, faults, steps[0]);
      if o.err.Some? then o else RunCopies(o.store, faults, steps[1..])
  }

  lemma RunCopiesUnfold(st: Store, faults: Faults, steps: seq<CopyStep>, i: nat)
    requires i < |steps|
    ensures RunCopies(st, faults, steps[i..])
      == var o := CopyOne(st, faults, steps[i]);
         if o.err.Some? then o else RunCopies(o.store, faults, steps[i + 1..])
  {
    assert steps[i..][0] == steps[i];
    assert steps[i..][1..] == steps[i + 1..];
  }

  /**
   * Fail-fast: a run that fails has a step k before which every step succeeded, and the
   * run ends exactly as running the steps up to k does; a run that succeeds succeeded on
   * every prefix.
   */
  lemma {:induction false} CopyStopsAtFirstError(st: Store, faults: Faults, steps: seq<CopyStep>)
    ensures var r := RunCopies(st, faults, steps);
      && (r.err.Some? ==> exists k :: (0 <= k < |steps|
            && RunCopies(st, faults, steps[..k]).err.None?
            && r == RunCopies(st, faults, steps[..k + 1])))
      && (r.err.None? ==> forall k :: 0 <= k <= |steps| ==> RunCopies(st, faults, steps[..k]).err.None?)
    decreases |steps|
  {
    if steps != [] {
      var o := CopyOne(st, faults, steps[0]);
      var rest := steps[1..];
      assert steps[..0] == [];
      assert steps[..1] == [steps[0]];
      assert RunCopies(st, faults, [steps[0]]) == (if o.err.Some? then o else Outcome(o.store, None));
      if o.err.None? {
        CopyStopsAtFirstError(o.store, faults, rest);
        forall k | 0 < k <= |steps|
          ensures RunCopies(st, faults, steps[..k]) == RunCopies(o.store, faults, rest[..k - 1])
        {
          assert steps[..k][0] == steps[0];
          assert steps[..k][1..] == rest[..k - 1];
        }
        var r := RunCopies(st, faults, steps);
        if r.err.Some? {
          var k' :| 0 <= k' < |rest|
            && RunCopies(o.store, faults, rest[..k']).err.None?
            && RunCopies(o.store, faults, rest) == RunCopies(o.store, faults, rest[..k' + 1]);
          assert RunCopies(st, faults, steps[..k' + 1]) == RunCopies(o.store, faults, rest[..k']);
          assert RunCopies(st, faults, steps[..k' + 2]) == RunCopies(o.store, faults, rest[..k' + 1]);
        }
      }
    }
  }

  /** Paths that no step writes keep their presence and their content; directories only grow. */
  lemma {:induction false} CopyTouchesOnlyDestinations(st: Store, faults: Faults, steps: seq<CopyStep>, p: string)
    requires forall k :: 0 <= k < |steps| ==> steps[k].dest != p
    ensures var r := RunCopies(st, faults, steps).store;
      && (p in r.contents <==> p in st.contents)
      && (p in st.contents ==> r.contents[p] == st.contents[p])
      && st.dirs <= r.dirs
    decreases |steps|
  {
    if steps != [] {
      var o := CopyOne(st, faults, steps[0]);
      if o.err.None? {
        CopyTouchesOnlyDestinations(o.store, faults, steps[1..], p);
      }
    }
  }

  /** Every step's destination is a different path, and none is the source of any step. */
  predicate SeparateDestinations(steps: seq<CopyStep>) {
    && (forall k, l :: 0 <= k < l < |steps| ==> steps[k].dest != steps[l].dest)
    && (forall k, l :: 0 <= k < |steps| && 0 <= l < |steps| ==> steps[k].dest != steps[l].source)
  }

  /** No read, mkdir or write that the steps make fails. */
  predicate NoFaultsHit(st: Store, faults: Faults, steps: seq<CopyStep>) {
    forall k :: 0 <= k < |steps| ==>
      && Readable(st.contents, faults, steps[k].source)
      && steps[k].bucket !in faults.mkdirFails
      && steps[k].dest !in faults.writeFails
  }

  /**
   * A run that hits no fault returns nil, creates every bucket and leaves at every
   * destination the bytes its source had, when destinations are separate.
   */
  lemma {:induction false} CopyDelivers(st: Store, faults: Faults, steps: seq<CopyStep>)
    requires NoFaultsHit(st, faults, steps) && SeparateDestinations(steps)
    ensures var r := RunCopies(st, faults, steps);
      && r.err.None?
      && forall k :: 0 <= k < |steps| ==>
           && steps[k].bucket in r.store.dirs
           && steps[k].dest in r.store.contents
           && r.store.contents[steps[k].dest] == st.contents[steps[k].source]
    decreases |steps|
  {
    if steps != [] {
      var s0, rest := steps[0], steps[1..];
      var o := CopyOne(st, faults, s0);
      assert o.err.None? && o.store.contents == st.contents[s0.dest := st.contents[s0.source]];
      forall k | 0 <= k < |rest|
        ensures Readable(o.store.contents, faults, rest[k].source)
        ensures o.store.contents[rest[k].source] == st.contents[rest[k].source]
      {
        assert rest[k] == steps[k + 1];
      }
      assert SeparateDestinations(rest) by {
        assert forall k :: 0 <= k < |rest| ==> rest[k] == steps[k + 1];
      }
      CopyDelivers(o.store, faults, rest);
      assert forall k :: 0 <= k < |rest| ==> rest[k].dest != s0.dest;
      CopyTouchesOnlyDestinations(o.store, faults, rest, s0.dest);
      var r := RunCopies(st, faults, steps);
      forall k | 0 <= k < |steps|
        ensures steps[k].bucket in r.store.dirs && steps[k].dest in r.store.contents
        ensures r.store.contents[steps[k].dest] == st.contents[steps[k].source]
      {
        if k > 0 {
          assert steps[k] == rest[k - 1];
        }
      }
    }
  }

  /** CopyFilesTo writes file i exactly where PrepareCopy plans to put it, and reads what the plan moves. */
  lemma CopyFollowsPlan(targetDir: string, files: seq<FileInfo>, cutoff: Date, abs: string -> string)
    ensures |CopySteps(targetDir, files)| == |Plan(targetDir, files, cutoff, abs)|
    ensures forall i :: 0 <= i < |files| ==>
      && CopySteps(targetDir, files)[i].dest == Plan(targetDir, files, cutoff, abs)[i].to
      && Plan(targetDir, files, cutoff, abs)[i].from == abs(CopySteps(targetDir, files)[i].source)
  {
    PlanEntries(targetDir, files, cutoff, abs);
  }

  /**
   * CopyFilesTo: for each file in order, read it, make its bucket, pick its name with the
   * per-call counter map and write it; the first error is returned at once.
   */
  method CopyFilesTo(fs: FileSystem, targetDir: string, files: seq<FileInfo>) returns (err: Option<IoError>)
    modifies fs
    ensures Outcome(Store(fs.contents, fs.dirs), err)
      == RunCopies(Store(old(fs.contents), old(fs.dirs)), fs.faults, CopySteps(targetDir, files))
  {
    ghost var steps := CopySteps(targetDir, files);
    ghost var start := Store(fs.contents, fs.dirs);
    var copiedFileNames: map<string, int> := map[];
    var i := 0;
    while i < |files|
      invariant 0 <= i <= |files|
      invariant copiedFileNames == Counters(BaseNames(files)[..i])
      invariant RunCopies(start, fs.faults, steps) == RunCopies(Store(fs.contents, fs.dirs), fs.faults, steps[i..])
    {
      var fileToCopy := files[i];
      ghost var o := CopyOne(Store(fs.contents, fs.dirs), fs.faults, steps[i]);
      RunCopiesUnfold(Store(fs.contents, fs.dirs), fs.faults, steps, i);
      var input := fs.ReadFile(fileToCopy.path);
      if input.Failure? {
        return Some(input.error);
      }
      var destinationPath := Bucket(targetDir, fileToCopy.creationDate);
      assert destinationPath == steps[i].bucket;
      var e := fs.MkdirAll(destinationPath);
      if e.Some? {
        return e;
      }
      var fileName;
      fileName, copiedFileNames := NextName(fileToCopy.path, copiedFileNames, files, i);
      assert Join(destinationPath, fileName) == steps[i].dest;
      e := fs.WriteFile(Join(destinationPath, fileName), input.value);
      if e.Some? {
        return e;
      }
      assert o.store == Store(fs.contents, fs.dirs);
      i := i + 1;
    }
    assert steps[i..] == [];
    return None;
  }

  // ---------------------------------------------------------------- deleting

  /** The contents after os.Remove has been tried on each file's path in turn. */
  function AfterDelete(contents: map<string, Bytes>, faults: Faults, files: seq<FileInfo>): map<string, Bytes>
    decreases |files|
  {
    if files == [] then contents
    else
      var before, p := AfterDelete(contents, faults, files[..|files| - 1]), files[|files| - 1].path;
      if Removable(before, faults, p) then before - {p} else before
  }

  /**
   * Deleting is best-effort: a path survives exactly when it may not be removed or no
   * file names it, and what survives keeps its content.
   */
  lemma {:induction false} DeleteRemovesListedPaths(contents: map<string, Bytes>, faults: Faults, files: seq<FileInfo>)
    ensures forall p :: p in AfterDelete(contents, faults, files) <==>
      p in contents && (p in faults.removeFails || forall i :: 0 <= i < |files| ==> files[i].path != p)
    ensures forall p :: p in AfterDelete(contents, faults, files) ==> AfterDelete(contents, faults, files)[p] == contents[p]
    decreases |files|
  {
    if files != [] {
      var init := files[..|files| - 1];
      DeleteRemovesListedPaths(contents, faults, init);
      assert forall i :: 0 <= i < |init| ==> init[i] == files[i];
    }
  }

  /** Deleting the same files a second time changes nothing. */
  lemma DeleteTwiceIsDeleteOnce(contents: map<string, Bytes>, faults: Faults, files: seq<FileInfo>)
    ensures AfterDelete(AfterDelete(contents, faults, files), faults, files) == AfterDelete(contents, faults, files)
  {
    var once := AfterDelete(contents, faults, files);
    DeleteRemovesListedPaths(contents, faults, files);
    DeleteRemovesListedPaths(once, faults, files);
  }

  /** DeleteFiles: os.Remove on every file in turn; a failure is only logged, and nil is returned. */
  method DeleteFiles(fs: FileSystem, files: seq<FileInfo>) returns (err: Option<IoError>)
    modifies fs
    ensures err == None
    ensures fs.dirs == old(fs.dirs)
    ensures fs.contents == AfterDelete(old(fs.contents), fs.faults, files)
  {
    var i := 0;
    while i < |files|
      invariant 0 <= i <= |files|
      invariant fs.dirs == old(fs.dirs)
      invariant fs.contents == AfterDelete(old(fs.contents), fs.faults, files[..i])
    {
      assert files[..i + 1][..i] == files[..i];
      var e := fs.Remove(files[i].path);
      i := i + 1;
    }
    assert files[..i] == files;
    return None;
  }

  /** The files created strictly before the cutoff, in their original order. */
  function CreatedBefore(cutoff: Date, files: seq<FileInfo>): seq<FileInfo>
    decreases |files|
  {
    if files == [] then []
    else
      var kept, f := CreatedBefore(cutoff, files[..|files| - 1]), files[|files| - 1];
      if Before(f.creationDate, cutoff) then kept + [f] else kept
  }

  /** Filtering a concatenation filters each part and keeps them in order. */
  lemma {:induction false} CreatedBeforeAppend(cutoff: Date, a: seq<FileInfo>, b: seq<FileInfo>)
    ensures CreatedBefore(cutoff, a + b) == CreatedBefore(cutoff, a) + CreatedBefore(cutoff, b)
    decreases |b|
  {
    if b != [] {
      var init := b[..|b| - 1];
      var f := b[|b| - 1];
      assert (a + b)[..|a + b| - 1] == a + init;
      assert (a + b)[|a + b| - 1] == f;
      CreatedBeforeAppend(cutoff, a, init);
      var x, y := CreatedBefore(cutoff, a), CreatedBefore(cutoff, init);
      assert x + y + [f] == x + (y + [f]);
    } else {
      assert a + b == a;
    }
  }

  /** A file is kept exactly when it is among the inputs and was created before the cutoff. */
  lemma {:induction false} CreatedBeforeMembers(cutoff: Date, files: seq<FileInfo>)
    ensures forall f :: f in CreatedBefore(cutoff, files) <==> f in files && Before(f.creationDate, cutoff)
    decreases |files|
  {
    if files != [] {
      var init := files[..|files| - 1];
      CreatedBeforeMembers(cutoff, init);
      assert files == init + [files[|files| - 1]];
    }
  }

  /** Filtering an already filtered list gives it back. */
  lemma {:induction false} CreatedBeforeIdempotent(cutoff: Date, files: seq<FileInfo>)
    ensures CreatedBefore(cutoff, CreatedBefore(cutoff, files)) == CreatedBefore(cutoff, files)
    decreases |files|
  {
    if files != [] {
      var init, f := files[..|files| - 1], files[|files| - 1];
      CreatedBeforeIdempotent(cutoff, init);
      if Before(f.creationDate, cutoff) {
        CreatedBeforeAppend(cutoff, CreatedBefore(cutoff, init), [f]);
        assert [f][..0] == [];
      }
    }
  }

  /** DeleteFilesCreatedBefore: keep the files created strictly before the cutoff, delete them, return them. */
  method DeleteFilesCreatedBefore(fs: FileSystem, cutoffDate: Date, files: seq<FileInfo>) returns (filteredFiles: seq<FileInfo>)
    modifies fs
    ensures filteredFiles == CreatedBefore(cutoffDate, files)
    ensures fs.dirs == old(fs.dirs)
    ensures fs.contents == AfterDelete(old(fs.contents), fs.faults, filteredFiles)
  {
    filteredFiles := [];
    var i := 0;
    while i < |files|
      invariant 0 <= i <= |files|
      invariant filteredFiles == CreatedBefore(cutoffDate, files[..i])
    {
      assert files[..i + 1][..i] == files[..i];
      if Before(files[i].creationDate, cutoffDate) {
        filteredFiles := filteredFiles + [files[i]];
      }
      i := i + 1;
    }
    assert files[..i] == files;
    var _ := DeleteFiles(fs, filteredFiles);
  }

  /**
   * Running the delete step again on its own result selects the same files and removes
   * nothing more.
   */
  lemma SecondDeleteRunChangesNothing(contents: map<string, Bytes>, faults: Faults, cutoff: Date, files: seq<FileInfo>)
    ensures var filtered := CreatedBefore(cutoff, files);
      && CreatedBefore(cutoff, filtered) == filtered
      && AfterDelete(AfterDelete(contents, faults, filtered), faults, CreatedBefore(cutoff, filtered))
         == AfterDelete(contents, faults, filtered)
  {
    CreatedBeforeIdempotent(cutoff, files);
    DeleteTwiceIsDeleteOnce(contents, faults, CreatedBefore(cutoff, files));
  }
}
