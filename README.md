# copy-images: the classification and copy-plan engine, in Dafny

This project models the engine of copy-images, a tool that sorts photos from a
source tree into `target/<year>/<English month name>/` folders. The model covers:

- **The walk.** `visit` and `CollectFiles` collect the files whose lower-cased
  extension is on an allow-list, and prune every directory whose lower-cased path
  contains an excluded substring.
- **The destination namer.** PrepareCopy and CopyFilesTo share it. It picks the
  month bucket, and it renames repeated base names with `_1`, `_2`, ... through
  `strings.Replace`.
- **The planner.** `PrepareCopy` without the manifest write, and `operationType`:
  MOVE before the cutoff, COPY from it on.
- **The executors.** `CopyFilesTo` is fail-fast. `DeleteFiles` is best-effort and
  always returns nil. `DeleteFilesCreatedBefore` is an order-preserving filter
  followed by a delete.
- **The helpers.** `utils.ItemExists` (linear search) and `utils.RemoveMonths`
  (`AddDate(0, -n, 0)` with Go's day-overflow normalisation).

Modules:

| module | file | contents |
|---|---|---|
| `Wrappers` | wrappers.dfy | `Option`, `Result` |
| `GoLib` | golib.dfy | the parts of `strings`, `strconv` and `path` the core calls |
| `Dates` | dates.dfy | the calendar side of `time.Time` (Year, Month, Month.String, Before, AddDate), and `RemoveMonths` |
| `ArrayUtils` | array_utils.dfy | `ItemExists` |
| `Model` | model.dfy | `FileInfo`, `CollectFilesConfig`, `OpType`, `FileOperation` |
| `Disk` | disk.dfy | the source tree walked by `filepath.Walk`; a `FileSystem` class (path→bytes map and directory set) whose `ReadFile`, `MkdirAll`, `WriteFile`, `Remove` fail at fixed sets of paths |
| `Walker` | walker.dfy | `Collector`, the closure `visit` returns, as a class whose `files` field it grows; `CollectFiles`; a flat reference: a pre-order listing of the tree and its sweep |
| `Planner` | planner.dfy | bucket, renaming counter, `operationType`, the plan and `PrepareCopy` |
| `Executor` | executor.dfy | `CopyFilesTo`, `DeleteFiles`, `DeleteFilesCreatedBefore` and their reference functions |

Each imperative operation is a method proved against a reference function:

- **`Collector.Walk`** against `WalkNode`. In turn, `WalkIsSweep` proves that
  `WalkNode` equals the sweep of the flat pre-order listing. The properties of the
  walk are then proved on the listing.
- **`PrepareCopy`** against `Plan`, which is built from `Destination`. Naming is
  specified by counting earlier files with the same base name (`PriorCount`), not by
  the map. `Counters` relates the map to that count.
- **`CopyFilesTo`** against `RunCopies`.
- **`DeleteFiles`** against `AfterDelete`.
- **`DeleteFilesCreatedBefore`** against `CreatedBefore`.

`model/model.go` is out of step with `file/file.go`: it has no `CreationDate`,
`FileOperation` or `OpType`. The model's record types follow what `file/file.go`
uses. `file/file_test.go` calls an older API; its expectations, such as
`2021/August/test.gif` followed by `test_1.gif`, appear here as lemmas.

Paths are built as Go builds them. `path.Join` and `filepath.Join` clean their result
(`GoLib.Clean` models `path.Clean`), so children of the walk root "." are `sub`, not
`./sub`, children of "/" are `/sub`, and a bucket below "." is `2021/August`. The root
itself is visited under the path it was given, as `filepath.Walk` does.

Two behaviours of the code are worth stating on their own:

- **Destination names are not unique within a pass.** The comment at
  file/file.go:66 and :130 says the counter creates a new file name "in order to not
  override elements in the destination". But only base names are counted, and a
  generated name is never recorded in the map. So the second `x/test.gif` and a file
  already called `test_1.gif` in the same month both go to `.../test_1.gif`
  (`Planner.DestinationsMayCollide`). Distinct names are guaranteed only among files
  that share a base name (`Planner.SameBaseSameBucketDistinct`).
- **`DeleteFilesCreatedBefore` run again on its own result returns that same list.**
  The filter is idempotent, so the second run selects every file again, and it
  removes nothing further (`Executor.SecondDeleteRunChangesNothing`).

## Model

| member | source | states |
|---|---|---|
| `Walker.Collector.Visit` | file/file.go:26-45 | An unreadable entry gives Fatal and leaves the files unchanged. A directory gives SkipDir exactly when some lower-cased excluded entry occurs in its lower-cased path, and Continue otherwise, with nothing appended. A file gives Continue and appends `FileInfo(path, modTime)` exactly when its lower-cased extension is on the allow-list; earlier entries are kept. |
| `Walker.Collector.Walk` | file/file.go:49-50 | The walk of one entry appends exactly the files of the pre-order reference `WalkNode` and reports Fatal exactly when the reference meets a read error, at the same path. It returns SkipDir exactly for an excluded directory. Child paths are `path.Join(dir, name)`, cleaned as Go cleans them. |
| `Walker.Collector.WalkEntries` | file/file.go:49-50 | Walking a directory's entries in order appends the reference files of the children and fails exactly when one of them fails. A SkipDir from a child only skips that child. Each child is walked at the cleaned `path.Join(dir, name)`. |
| `Walker.Collector.CollectFiles` | file/file.go:49-51 | `files` becomes the old slice followed by the reference walk's files. The fatal path reported is the reference's (log.Fatal stands as an error result). |
| `Walker.WalkFromDot` | file/file.go:49-50 | Walking "." over a directory holding a file: the file is collected as `dir/name`, with no leading `./`, when its extension is supported. |
| `Walker.SlashedEntryKeepsDirBelowDot` | file/file.go:32-35 | With "/" + dir as the only excluded entry, walking "." does not prune dir, because its path `dir` has no leading '/'; its supported file is collected as `dir/name`. |
| `Walker.WalkOneFileBelow` | file/file.go:49-50 | A root holding one directory that holds one file yields that file at `path.Join(path.Join(root, dir), name)` when neither directory is excluded. |
| `Walker.LongerEntryNeverExcludes` | file/file.go:33 | An excluded entry longer than a path never prunes that path. |
| `Walker.WalkIsSweep` | file/file.go:31-44 | The recursive walk with pruning equals the front-to-back sweep of the flat pre-order listing, in which an entry counts only when no directory above it is excluded. |
| `Walker.PrunedListing` | file/file.go:31-36 | Nothing below an excluded directory contributes a file or an error. |
| `Walker.CollectedAreKeptFiles` | file/file.go:39-44 | Every collected entry is a file of the tree (never a directory) with a supported extension and no excluded directory above it. It is recorded with that file's path and modification time. |
| `Walker.KeptFilesAreCollected` | file/file.go:39-44 | When the walk meets no read error, every reached file with a supported extension is collected. |
| `Walker.FatalIffUnreadableReached` | file/file.go:26-29 | The walk ends in log.Fatal exactly when some unreadable entry lies outside every excluded directory. |
| `Walker.ExcludedRootYieldsNothing` | file/file.go:31-36 | An excluded root directory yields no files and no error, even when an unreadable entry lies beneath it. |
| `Walker.UpperCaseEntryNeverMatches` | file/file.go:39 | An allow-list entry with an upper-case letter never equals a lower-cased extension: the comparison is case-sensitive against the list as given. |
| `Walker.SweepSound` | file/file.go:42-43 | Each collected entry comes from a kept entry of the listing. |
| `Walker.SweepComplete` | file/file.go:42-43 | A sweep without error contains every kept entry. |
| `Walker.SweepFatal` | file/file.go:27-28 | A sweep fails exactly when a reached unreadable entry exists, and it reports the first one. |
| `ArrayUtils.ItemExistsExamples` | utils/array_utils_test.go:13-28 | `.jpeg` is found in `[.png, .jpeg, .gif]` and `.notFound` is not. |
| `ArrayUtils.ItemExists` | utils/array_utils.go:14-20 | The result is true exactly when some element equals the item; it is false for an empty sequence. |
| `Planner.Bucket` | file/file.go:60-63 | The bucket ends with `<Itoa(year)>/<month name>`. |
| `Planner.BucketIsBelowTarget` | file/file.go:60-63 | The bucket is `<Itoa(year)>/<month name>` after `JoinPrefix(targetDir)`, the text path.Join puts in front of a name below the cleaned target. |
| `Planner.BucketShape` | file/file.go:60-63 | Below an empty target or "." the bucket is `<year>/<month>`. Below "/" it is `/<year>/<month>`. Below a plain directory name it is `name/<year>/<month>`. |
| `Planner.BucketIsClean` | file/file.go:63 | A bucket is a clean path, so path.Join puts a plain file name after it with a single '/'. |
| `Planner.BucketElementsArePlain` | file/file.go:60-62 | The year as strconv.Itoa prints it and the month name are plain path elements, which path.Clean keeps. |
| `Planner.BucketOfAugust2021` | file/file_test.go:127-130 | A file from August 2021 goes to `path.Join(target, "2021", "August")`. |
| `Planner.BucketIdentifiesMonth` | file/file.go:60-63 | Under one target, two dates share a bucket exactly when their year and month agree. |
| `Planner.OperationType` | file/file.go:98-104 | The operation is MOVE exactly when the file was created strictly before the cutoff. |
| `Planner.DestName` | file/file.go:65-72 | The file name is the base name for counter 0. For a counter k > 0 it is the base name with `_k` inserted at the offset where `strings.Index` first finds the extension, which lies within the name. |
| `Planner.DestNamePlain` | file/file.go:65-72 | Renaming a plain base name gives a plain name: no '/', and neither "." nor "..". |
| `Planner.RenamedShape` | file/file.go:69 | Renaming with counter k inserts `_k` at the offset where `strings.Index` first finds the extension text. |
| `Planner.DestinationNaming` | file/file.go:65-82 | If no earlier file has the base name, the destination is `path.Join(bucket, base)`. Otherwise it is the bucket joined with the base name renamed with the number of earlier files sharing it (at least 1): `test.gif`, then `test_1.gif`, `test_2.gif`. For a plain base name the destination is `bucket/name`. |
| `Planner.CounterStep` | file/file.go:67-71 | One map update: the key is present exactly when an earlier file had the base name, and then it holds that count minus one. Present keys are incremented; absent keys are set to 0. |
| `Planner.CountersCount` | file/file.go:67-71 | The counter map holds exactly the base names seen so far, each mapped to its number of occurrences minus one. |
| `Planner.PriorCountIncreases` | file/file.go:67-69 | A later file with the same base name meets a strictly higher counter. |
| `Planner.DestNameInjective` | file/file.go:69 | Different counters give different names for one base name. |
| `Planner.SameBaseSameBucketDistinct` | file/file.go:65-82 | Two files of one call with the same plain base name and the same bucket never get the same destination. |
| `Planner.RenamedSimple` | file/file_test.go:152-156 | `stem.ext` repeated becomes `stem_k.ext` (`test.gif` → `test_1.gif`). |
| `Planner.RenamedRepeatedExt` | file/file.go:69 | The first occurrence of the extension text is the one renamed: `a.jpg.jpg` becomes `a_1.jpg.jpg`. |
| `Planner.RenamedUndotted` | file/file.go:69 | A name without an extension gets the tag in front: `README` becomes `_1README`. |
| `Planner.DestinationsMayCollide` | file/file.go:65-72 | Three files `a/stem.ext`, `b/stem.ext` and `c/stem_1.ext` from one month: files 2 and 3 get the same destination. |
| `Planner.CopyFromCutoffOn` | file/file.go:98-104 | The operation is COPY exactly for files created at or after the cutoff, and MOVE exactly for files created strictly before it. |
| `Planner.RecentFilesAreCopied` | file/file.go:97-104 | With a cutoff n > 0 months back from now, a file created now is copied, and every moved file predates now. |
| `Planner.PlanEntries` | file/file.go:58-85 | The plan has one operation per input, in input order. Operation i has From = Abs(path i), To = the destination of file i, and MOVE exactly when file i predates the cutoff. |
| `Planner.PlanIsPrefixClosed` | file/file.go:59-85 | Planning more files only appends operations: the plan of a prefix is the prefix of the plan. |
| `Planner.PlanStep` | file/file.go:78-84 | The plan for i + 1 files is the plan for i followed by file i's operation. |
| `Planner.NextName` | file/file.go:65-72 | The renaming block yields the destination name specified by the count of earlier equal base names. It leaves the map equal to the counters of the first i + 1 base names. |
| `Planner.PrepareCopy` | file/file.go:55-86 | The loop with its in-place counter map returns exactly the reference plan `Plan`. |
| `Executor.CopyFilesTo` | file/file.go:107-144 | The new file contents and directories, and the returned error, are those of the reference run: for each file in order, read it, MkdirAll its bucket, write its destination, and stop at the first error. |
| `Executor.CopyStopsAtFirstError` | file/file.go:111-143 | A failing run has a step k such that every earlier step succeeded, and the run ends exactly as the run of steps 0..k does. A run returns nil only when every prefix succeeded. |
| `Executor.CopyTouchesOnlyDestinations` | file/file.go:138 | A path that no step writes keeps its presence and content; directories only grow. |
| `Executor.CopyDelivers` | file/file.go:111-143 | Suppose no read, mkdir or write fails and the destinations are distinct and are not sources. Then the run returns nil, every bucket exists, and every destination holds its source's bytes. |
| `Executor.CopyFollowsPlan` | file/file.go:118-138 | CopyFilesTo writes file i to exactly the To that PrepareCopy plans for file i, and reads the file whose Abs is that operation's From. |
| `Executor.DeleteFiles` | file/file.go:147-158 | Removal is tried on every file in turn whatever fails. The result is nil, directories are unchanged, and the contents are those of the reference `AfterDelete`. |
| `Executor.DeleteRemovesListedPaths` | file/file.go:149-156 | A path survives deletion exactly when it existed and either may not be removed or is named by no file; survivors keep their content. |
| `Executor.DeleteTwiceIsDeleteOnce` | file/file.go:147-158 | Deleting the same files again changes nothing. |
| `Executor.DeleteFilesCreatedBefore` | file/file.go:161-174 | It returns exactly the filter `CreatedBefore` of the inputs, and it leaves contents equal to deleting that list. |
| `Executor.CreatedBeforeMembers` | file/file.go:165-169 | A file is in the result exactly when it is an input created strictly before the cutoff. |
| `Executor.CreatedBeforeAppend` | file/file.go:165-169 | Filtering a concatenation is concatenating the filtered parts, so the original order is kept. |
| `Executor.CreatedBeforeIdempotent` | file/file.go:161-169 | Filtering an already filtered list gives it back. |
| `Executor.SecondDeleteRunChangesNothing` | file/file.go:161-174 | Run again on its own result, delete-before-cutoff selects the same list and removes nothing more. |
| `Disk.FileSystem.ReadFile` | file/file.go:113 | ioutil.ReadFile returns the file's whole content when the path holds a file that may be read, and an error for that path otherwise. Nothing changes. |
| `Disk.FileSystem.MkdirAll` | file/file.go:125 | os.MkdirAll adds the directory and returns nil, also when it already exists, unless the path is among the mkdir faults; then it returns an error and changes nothing. File contents never change. |
| `Disk.FileSystem.WriteFile` | file/file.go:138 | ioutil.WriteFile creates or overwrites the path with the data and returns nil, unless the path is among the write faults; then it returns an error and changes nothing. Directories never change. |
| `Disk.FileSystem.Remove` | file/file.go:151 | `os.Remove` deletes an existing removable file and reports an error otherwise, with contents unchanged. |
| `Dates.RemoveMonths` | utils/date.go:7-8 | The time of day is kept. The month index drops by exactly n with the day kept, or the day overflows the target month and spills into the next month by the excess. |
| `Dates.RemoveMonthsKeepsDay` | utils/date.go:8 | For a day up to 28, year*12 + month - 1 drops by exactly n, and the day and time of day are kept. |
| `Dates.RemoveZeroMonths` | utils/date.go:8 | Removing 0 months returns the date unchanged. |
| `Dates.RemoveMonthsIsEarlier` | utils/date.go:7-8 | Removing n > 0 months always gives an earlier instant, also when the day overflows. |
| `Dates.RemoveNegativeMonths` | utils/date.go:8 | For a day up to 28, a negative n moves the month index |n| months forward with the day kept, to a later instant. |
| `Dates.RemoveNegativeMonthsIsLater` | utils/date.go:8 | For every day, also one that overflows, a negative n gives a later instant. |
| `Dates.RemoveMonthsAdds` | utils/date.go:8 | For a day up to 28, removing a then b months is removing a + b months. |
| `Dates.RemoveMonthsWithinYear` | utils/date_test.go:15-23 | From 2021-03-03, one month back is 2021-02-03 and two months back is 2021-01-03. |
| `Dates.RemoveMonthsAcrossYear` | utils/date_test.go:31-41 | From 2021-03-03, three months back is 2020-12-03 and six months back is 2020-09-03. |
| `Dates.RemoveMonthsOverflow` | utils/date.go:8 | 2021-03-31 less one month normalises to 2021-03-03. |
| `Dates.MonthName` | file/file.go:61-62 | time.Month.String gives the month's English name from the fixed table. The contract states only that the name has at least three characters and no '/'. |
| `Planner.MonthNameInjective` | file/file.go:62 | Different months have different names. |
| `Dates.BeforeIsStrictTotalOrder` | file/file.go:100 | time.Time.Before is irreflexive, asymmetric, transitive and total on distinct dates. |
| `GoLib.Ext` | file/file.go:39 | path.Ext is a suffix of the path that starts with '.' and holds no further '.' or '/'. |
| `GoLib.Base` | file/file.go:65 | path.Base is "." for the empty path and "/" for a path of slashes only. Otherwise it is the end of the path, with trailing slashes removed, after the last '/' there, and it holds no '/'. It is never empty. |
| `GoLib.ReplaceFirst` | file/file.go:69 | strings.Replace(s, p, r, 1) is s when p equals r or does not occur. Otherwise the text before the first occurrence of p is kept, r takes the place of p, and the text after p follows. |
| `GoLib.Itoa` | file/file.go:62 | strconv.Itoa yields decimal digits, with a '-' first for a negative number, and those digits denote the number's absolute value. The form is canonical: 0 prints as `0`, and otherwise the first digit is never '0'. |
| `GoLib.CleanIsIdempotent` | file/file.go:63 | Cleaning a path that path.Clean produced changes nothing. |
| `GoLib.JoinPlainName` | file/file.go:82 | path.Join(a, e) for a plain name e is e after `JoinPrefix(a)`: nothing for an empty a or one that cleans to ".", "/" for one that cleans to "/", and the cleaned a and '/' otherwise. |
| `GoLib.JoinPrefixOfPlain` | file/file.go:82 | path.Clean keeps a plain name, so below it a name follows a single '/'. |
| `GoLib.JoinPrefixOfDotAndRoot` | file/file.go:63 | "." and "/" are clean. Below "." a name stands alone, and below "/" it follows the slash. |
| `GoLib.JoinNested` | file/file.go:62-63 | path.Join(a, path.Join(e1, e2)) for plain names is `e1/e2` after `JoinPrefix(a)`. |
| `GoLib.Clean` | file/file.go:63 | path.Clean keeps a rooted path rooted. That cleaning changes nothing on a cleaned path is `GoLib.CleanIsIdempotent`; which elements survive is stated through `GoLib.JoinPlainName` and `GoLib.JoinPrefixOfDotAndRoot`. |
| `GoLib.Join` | file/file.go:62-63 | path.Join below a rooted first element gives a non-empty rooted path. The same function serves path.Join at file/file.go:82 and filepath.Join inside the walk; the shape of its result is stated by `GoLib.JoinPlainName`, `GoLib.JoinNested` and `GoLib.JoinInjective`. |
| `GoLib.ToLower` | file/file.go:33 | strings.ToLower on ASCII keeps the length and lowers each character: each capital 'A'..'Z' becomes its own small letter (code + 32), every other character is kept. The same call lowers the extension at file/file.go:39. |
| `GoLib.ToLowerOfMixedCase` | file/file.go:33 | Each capital becomes its own small letter: `AbC` becomes `abc`, and `A` and `B` stay apart. |
| `GoLib.Index` | file/file.go:33 | strings.Index returns -1 exactly when sub does not occur; otherwise it returns an occurrence with none before it. |
| `GoLib.ContainsIff` | file/file.go:33 | strings.Contains holds exactly when sub occurs somewhere in s. |
| `GoLib.ReplaceFirstInserts` | file/file.go:69 | Replacing the first occurrence of p by ins + p inserts ins where strings.Index finds p. |
| `GoLib.ItoaInjective` | file/file.go:62 | Different years print differently with strconv.Itoa. |
| `GoLib.JoinInjective` | file/file.go:82 | Joining one directory with two plain names gives one path only for one name. |
| `GoLib.NoExtMeansNoDotInLastElement` | file/file.go:39 | When path.Ext is empty, every '.' of the path lies before a later '/'. |

## Left out

- The manifest write of PrepareCopy (file/file.go:90-94) is left out, as is the JSON encoding. `PrepareCopy` returns the plan; the error of the manifest write is not modelled.
- `filepath.Abs` needs the working directory. It is a function parameter `abs` of `PrepareCopy` and `Plan`, and its error is ignored, as the code ignores it.
- Progress printing (`fmt.Printf`, `fmt.Println`) and `log.Print` in DeleteFiles are left out: they do not change the state.
- `log.Fatal` in visit (file/file.go:27-28) ends the process. It becomes the `Fatal(path)` signal and the `fatalAt` / `fatal` result, after which nothing more is walked.
- `Disk.FileSystem.Remove`: `os.Remove` also deletes an empty directory. The model removes files only and fails on a directory's path. The core passes `DeleteFiles` only the walked files, never a directory.
- `Disk.FileSystem` keys files by their path string. Two spellings of one file, such as a relative source path and an absolute destination below it, are separate entries, so filesystem aliasing between spellings is not modelled. The hypothesis of `Executor.CopyDelivers` that destinations are not sources is stated on these strings.
- The filesystem is deterministic. Each of `ReadFile`, `MkdirAll`, `WriteFile` and `Remove` fails at a fixed set of paths given as `Faults`; this set stands for permissions, a full disk and the like. `ReadFile` and `Remove` also fail on a path that holds no file. `MkdirAll` and `WriteFile` fail only at their fault sets. `MkdirAll` records only the bucket it is called on, not its parent directories. `WriteFile` does not require the parent directory to exist.
- `filepath.Walk` is library code. It is modelled as the recursion `Walk`/`WalkEntries` over a `Disk.Node` tree. filepath.Walk visits a directory's children sorted by name. The model accepts any child order, so sorted order is one case it covers. It also accepts any names, while a real listing holds only plain, distinct names. An `Unreadable` node stands for a failing Lstat or directory listing. Walking calls `visit` with the error, so the model reports Fatal at that entry. Symbolic links are not modelled.
- `Collector`: the closure captures the address of the caller's slice (`*files`). The model holds the slice in a field of the `Collector` object, so aliasing of that slice by other code is not modelled.
- `GoLib.Clean` models `path.Clean` on its elements. The algorithm is Go's: drop empty and "." elements, let ".." remove the element before it, and write "." or "/" when nothing is left. It is stated as a function of the split path, not as Go's byte-by-byte loop.
- `Planner.DestinationNaming`: the `bucket/name` shape is stated for a plain base name only. A base name of ".", ".." or "/" is left to `path.Join`'s general definition. The walk never yields such a file: a file's path ends in its own name from the listing.
- `Planner.SameBaseSameBucketDistinct`: requires a plain base name, for the same reason. Distinctness for a base name of ".", ".." or "/" is not proved.
- `GoLib.JoinInjective`: requires plain names. path.Join maps "." and ".." below a directory to that directory and to its parent, so the property fails for them.
- `Dates.MonthName`: the contract states the name's length and the absence of '/', not the name itself; the name is the constant `MonthNames` table entry, and `Planner.BucketOfAugust2021` uses it for August.
- `GoLib.Join`: its own contract states only that a rooted first element gives a rooted result. What the result is for plain names, for "." and for "/" is stated by the lemmas named in its row; other inputs rely on the definition alone.
- `GoLib.ToLower` handles ASCII letters only; Unicode case mapping is not modelled. Paths use '/' as their only separator, so `filepath.Ext` and `path.Ext` coincide.
- `Dates`: time zones, monotonic clock readings and leap seconds are left out. A date is a valid calendar day with nanoseconds since midnight, read in one location.
- `ArrayUtils.ItemExists`: Go panics when its argument is not a slice. The Dafny parameter is a sequence, so that case cannot arise. A sequence is a value, so the search cannot modify the caller's data.
- `main.go` (argument parsing and mode selection) is not part of this model. `model/model.go` holds only type declarations and is not part of this model either.
