# createrepo_c: a Dafny model of its concurrent and data-merging core

createrepo_c turns directories of RPM packages into repository metadata. This project models the parts of it
whose correctness is not visible from one function: the ordered concurrent writer, the delta scheduler, the
merge of repositories with Koji selection, the NEVRA parser and printer, the loading of metadata with
duplicates, and a few loops that change data in place. Every claim below is about all inputs, all schedules or
all reachable states.

| module | models |
|---|---|
| `Dumper`, `DumperSafety`, `DumperProgress` | the dumper protocol as a transition system, one step per critical section or unlocked read; its invariant; deadlock freedom and termination |
| `DumperObject` | `struct UserData` as a class; each section updates it in place and is proved to be a step of the system |
| `FillPool` | task ids, and the reproducibility of the whole output |
| `DelayedDump`, `KeepLast` | the delayed single-threaded dump, the keep-last rule for duplicate NEVRAs, package accounting in `main` |
| `DeltaScheduler`, `DeltaCandidates` | the producer and workers of the delta rpm generation; which old packages a job uses |
| `Versions`, `Packages`, `Nevra` | version comparison on top of an abstract `rpmvercmp`, and NEVRA strings |
| `Koji`, `Archs`, `Merge`, `MergeResults`, `MergeRepos` | what mergerepo_c admits, keeps and counts |
| `LoadMetadata` | duplicates while parsing primary.xml and while re-keying the parsed packages |
| `Repomd`, `Changelog`, `PackedFiles` | replacing, sorting and comparing repomd records; changelog date bumping; packed file lists |
| `Basics`, `Sorting`, `Strings` | sequences, sorting by a comparison function, C integer conversion, `g_strcmp0` |

## How the model relates to the program

* A worker of the dumper is a program counter; workers interleave freely and there may be any number of them and
  of tasks. Whether a package loads and its XML is produced is fixed per task (`Outcome`). The thread pool hands out
  tasks in the order of their ids, because they are pushed in that order (`src/createrepo_c.c:317-325`). The
  unlocked reads of `id_pri` are atomic reads.
* `rpmvercmp` is a function parameter; lemmas that need its laws assume a total preorder (`Versions.Lawful`).
* A string that may be NULL is an `Option<string>`. Hash tables are maps; where the program walks one, the order is
  an arbitrary sequence, and results that do not depend on it say so.
* A function and the method proved against it are two views of the same code: the method changes its object
  step by step as the source does, the function carries the lemmas.

## Where the code does not do what it says

Each of these is kept as the code has it. For each there is a lemma with inputs that fail and a lemma that says
exactly when the promise holds.

* A delayed dump whose XML generation fails for a task advances no counter, so the next task that is written or
  skipped waits forever (`src/dumper_thread.c:325-333`): `DelayedDump.FailedDumpHangs`, `DelayedDump.RunEndsIff`.
* The delta producer waits forever when a kept target alone exceeds `max_work_size` (`src/deltarpms.c:432-472`):
  `DeltaScheduler.LargeTargetHangs`, `DeltaScheduler.RunEndsIff`. The only caller passes one value for
  `max_delta_rpm_size` and `max_work_size` (`src/createrepo_c.c:2166-2173`), for which the producer never hangs:
  `DeltaScheduler.EveryDeltaRunCompletes`.
* `primary_pkgcb` says that packages of one id with different basenames block the id, but compares the basename
  with itself (`src/load_metadata.c:256-276`): `LoadMetadata.BasenamesAreNotCompared`,
  `LoadMetadata.BlocksAsAnnouncedIff`.
* `buildtimesort` returns a 64-bit difference as an int (`src/createrepo_c.c:547-549`), so it is no order: build times
  2^31 seconds apart are swapped, and three can go round in a circle. `KeepLast.FarBuildTimesAreMisordered`,
  `KeepLast.BuildTimesGoRound`; right about two packages: `KeepLast.BuildTimeSortIsRightIff`; right about the package
  that is kept: `KeepLast.KeepsLatestIff`.
* The changelog loop counts 64-bit dates with an int (`src/parsehdr.c:656-669`), so equal dates after January 2038 stay
  equal, and dates that are pushed past the largest int end up equal: `Changelog.LateDatesStayEqual`,
  `Changelog.LastDatesStayEqual`, `Changelog.IncreasingIff`.
* `cr_repomd_set_record` never finds a record whose type is NULL, so two of them can be in the list
  (`src/repomd.c:806-821`): `Repomd.SetRecordKeepsDistinctIff`.
* The comparison of two repomd files accepts different files when the first lists something twice
  (`src/repomd.c:981-1098`): `Repomd.TagScanIsNotSymmetric`, `Repomd.ComparisonIsExactIff`.
* Different file lists are packed the same when names hold a '/' or types are unknown (`src/sqlite.c:924-939`):
  `PackedFiles.SlashIsMistaken`, `PackedFiles.UnknownTypeIsMistaken`. The repository has no reader for the packed form;
  the one in this model gets everything back exactly for the other lists: `PackedFiles.RoundTripIff`,
  `PackedFiles.DatabaseConservesFilesIff`.
* `cr_package_nevra` prints strings that do not parse back for packages outside a described family:
  `Nevra.ColonInNameIsMisread`, `Nevra.RoundTripIff`.

## Model

| member | source | states |
|---|---|---|
| DumperSafety.StepKeepsInv | src/dumper_thread.c:742-813 | every critical section of every worker keeps the invariant: each started task is held by exactly one worker or buffered until it has left the last stream; turns are ordered; whoever passed `id_pri` to a buffered id still owes a drain check |
| DumperSafety.PipelineBounds | src/dumper_thread.c:104-118 | in every reachable state id_pri >= id_fil >= (id_fex >=) id_oth, the first leads the last by at most one task per worker, and the buffer is strictly sorted, at most 20 long, with ids >= id_pri only |
| DumperSafety.InsertSortedKeeps | src/dumper_thread.c:49-58 | the sorted insert of a new id keeps the buffer strictly ascending and adds exactly that id |
| DumperSafety.LogsAreSequential | src/dumper_thread.c:97-285 | in every reachable state the output of every stream is exactly what one thread going through the ids below that stream's counter would have written, with the same chunk marks; package_count is the length of the primary output |
| DumperSafety.SequentialIsLoadedIds | src/dumper_thread.c:97-285 | that output lists the loaded ids below the counter, all of them, ascending and each once |
| DumperSafety.SequentialLength | src/createrepo_c.c:1134-1139 | written plus failed packages are all tasks, so the count announced in the headers differs from package_count exactly when some package failed |
| DumperSafety.ChunkBoundaries | src/dumper_thread.c:109-143 | a zchunk chunk ends before a package iff its source rpm differs from that of the previously written package, NULL before the first |
| DumperSafety.LastSrpmIsLastWritten | src/dumper_thread.c:109-112 | prev_srpm/cur_srpm remember the source rpm of the last package written, over failed ones |
| DumperSafety.NeverStranded | src/dumper_thread.c:742-813 | when the id whose turn it is lies in the buffer, some worker has yet to make a drain check and does not wait for the primary turn before it |
| DumperSafety.IdleMeansEmpty | src/dumper_thread.c:793-813 | whenever all workers are idle the buffer is empty and every counter equals the number of started tasks |
| DumperProgress.DeadlockFree | src/dumper_thread.c:61-93 | with one worker or more, every state satisfying the invariant is final or has a worker that can go on, even with a full buffer |
| DumperProgress.OldestCanMove | src/dumper_thread.c:104-106 | the worker holding the task that is next for the last stream is never blocked |
| DumperProgress.StepDecreases | src/dumper_thread.c:742-813 | each step of a worker decreases a measure over unstarted, running and buffered tasks and remaining turns |
| DumperProgress.RunsAreBounded | src/dumper_thread.c:742-813 | no run, under any schedule and any pattern of failures, has more than 14 steps per task |
| DumperProgress.EveryMaximalRunCompletes | src/createrepo_c.c:1504-1509 | a run that cannot go on has every counter at task_count, nothing buffered, and on every stream the complete sequential output |
| FillPool.TaskCmpIsTotalOrder | src/createrepo_c.c:121-130 | task_cmp is a total order: tasks that compare as equal are equal |
| FillPool.TaskCmpMeaning | src/createrepo_c.c:121-130 | a task comes before another iff its file name does in the dictionary or, with the same file name, its path does |
| FillPool.Fill | src/createrepo_c.c:317-331 | the tasks found in one directory are sorted and pushed with consecutive ids |
| FillPool.FillAll | src/createrepo_c.c:783-793 | over all input directories the ids run on: task i is the i-th of the sorted directories, one after the other |
| FillPool.TaskOrderIsUnique | src/createrepo_c.c:317 | the same tasks have only one sorted order, so neither the walk nor the sorting algorithm matters |
| FillPool.StreamsAreSorted | src/createrepo_c.c:317-331 | a finished run lists, on every stream, one input directory after the other, exactly the packages that load, each as often as it was found there, sorted by file name and path within the directory |
| FillPool.OutputIsReproducible | src/createrepo_c.c:783-793 | two finished runs over the same packages write the same streams, whatever the order of the walk of each directory, the number of workers and the schedule |
| DumperObject.UserData.constructor | src/createrepo_c.c:1473-1477 | the initial counters, output and buffer are the initial state of the transition system |
| DumperObject.UserData.WritePrimary | src/dumper_thread.c:104-154 | counts the package, shifts the remembered source rpms, tells whether a new chunk starts, passes the turn and writes |
| DumperObject.UserData.WriteFilelists | src/dumper_thread.c:157-197 | passes the filelists turn and writes the package with the chunk mark it was given |
| DumperObject.UserData.WriteFilelistsExt | src/dumper_thread.c:200-242 | the same for filelists-ext |
| DumperObject.UserData.WriteOther | src/dumper_thread.c:245-284 | the same for other |
| DumperObject.UserData.Pass | src/dumper_thread.c:61-93 | one section of the error path passes one turn and writes nothing |
| DumperObject.UserData.BufferOrNot | src/dumper_thread.c:742-768 | buffers a task, in sorted position, iff fewer than 20 are buffered, it is not its turn and it is not the last task |
| DumperObject.UserData.PopTurn | src/dumper_thread.c:793-811 | takes the head of the buffer iff its turn has come |
| DumperObject.UserData.StepWorker | src/dumper_thread.c:742-813 | any step of a worker on the object is the step of the transition system, on the shared fields and the worker |
| DelayedDump.WaitForIncrementedIds | src/dumper_thread.c:61-93 | with all turns at the id, the error path moves every stream past it and writes nothing |
| DelayedDump.WritePkg | src/dumper_thread.c:96-285 | with all turns at the id, writing moves every stream past it and keeps all outputs sequential |
| DelayedDump.DelayedDumpRun | src/dumper_thread.c:303-340 | the run leaves all streams with the sequential output up to the first task whose XML dump fails, and hangs at the first later task that does not fail itself, if there is one |
| DelayedDump.RunEndsIff | src/dumper_thread.c:311-333 | every counter reaches the task count iff no XML dump fails; the run hangs iff a task after a failing one does not fail itself |
| DelayedDump.FailedDumpHangs | src/dumper_thread.c:311-333 | a failing dump followed by a package that did not load: the second waits forever |
| KeepLast.BuildTimeSortIsRightIff | src/createrepo_c.c:546-553 | the comparator tells earlier, equal and later of two packages right iff the difference of their build times keeps its sign when cut to 32 bits |
| KeepLast.BuildTimeSortIsRightWithinInt | src/createrepo_c.c:546-553 | it does when an int holds the difference |
| KeepLast.NotLaterMeaning | src/createrepo_c.c:546-553 | the intended order is an earlier time or, at the same time, the same location or one that stands before in the dictionary |
| KeepLast.NotLaterIsTotalOrder | src/createrepo_c.c:546-553 | that order is total, transitive and antisymmetric |
| KeepLast.FarBuildTimesAreMisordered | src/createrepo_c.c:547-549 | of build times 2^31 to 2^32 seconds apart the later is taken for the earlier |
| KeepLast.BuildTimesGoRound | src/createrepo_c.c:547-549 | three build times of the 32-bit range that the comparator puts in a circle |
| KeepLast.HandleNevraDuplicates | src/createrepo_c.c:556-571 | keep-last marks exactly all but the last of a list and returns how many; otherwise nothing is marked |
| KeepLast.MarkDuplicates | src/createrepo_c.c:1513-1528 | over the whole table, in any order and however its lists are sorted, exactly all but the last of every list are marked, and the total is their number |
| KeepLast.OneIsKept | src/createrepo_c.c:1513-1528 | of every NEVRA exactly one package stays, the last of its list, whatever the build times |
| KeepLast.KeepsLatestIff | src/createrepo_c.c:536-571 | in every list without neighbours out of order the last package is a latest one, by build time and location, iff the latest build time stands out: its difference to each earlier one is positive when cut to 32 bits |
| KeepLast.NotStandingOutLosesLatest | src/createrepo_c.c:536-571 | otherwise there is such a list of the same packages that ends with an earlier one |
| KeepLast.SortedListExists | src/createrepo_c.c:1523 | whatever the build times, even in a circle, the packages of a NEVRA have such a list |
| KeepLast.OneKeptAndMaximal | src/createrepo_c.c:1513-1528 | of every NEVRA whose latest build time stands out exactly one package stays, and it is a latest one |
| KeepLast.DelayedIsOrderedWithoutSkipped | src/dumper_thread.c:303-340 | the delayed output is the ordered output of everything loaded with the skipped packages removed |
| KeepLast.DelayedOutcome | src/dumper_thread.c:310-332 | each task that loaded and is not skipped is written with its own source rpm, by which chunks are ended, and no other task is |
| KeepLast.EveryTaskIsAccountedFor | src/createrepo_c.c:1532-1549 | tasks = written + failed + skipped |
| KeepLast.DelayedDumpMain | src/createrepo_c.c:1513-1627 | the delayed end of main: complete sequential output, tasks = written + failed + skipped, and the announced count has to be rewritten exactly when some package failed |
| DeltaScheduler.ProducerKeepsInv | src/deltarpms.c:432-472 | a step of the producer with a stale snapshot keeps the invariant: counters are true, bounds hold, targets are pushed or still listed |
| DeltaScheduler.FinishKeepsInv | src/deltarpms.c:351-356 | so does a job that ends at any moment |
| DeltaScheduler.BoundsHold | src/deltarpms.c:432-472 | in every interleaving at most `workers` jobs run, active_work_size is the sum of their sizes and within max_work_size, and no target is lost or pushed twice |
| DeltaScheduler.StuckStates | src/deltarpms.c:463-471 | a reachable state without a step is the end, or the producer waits with nothing running for a target that never fits |
| DeltaScheduler.RunEndsIff | src/deltarpms.c:432-472 | every run is bounded; one that cannot go on has pushed every kept target exactly once iff each kept target alone is within max_work_size |
| DeltaScheduler.NeverWaitsForNothing | src/deltarpms.c:463-471 | when every kept target fits, the producer never waits with nothing running |
| DeltaScheduler.LargeTargetHangs | src/deltarpms.c:432-472 | a run that ends with the producer waiting for a job to finish when there is none |
| DeltaScheduler.BuildTargets | src/deltarpms.c:360-418 | the producer's list holds the packages smaller than max_delta_rpm_size, each as often as given and no others, the largest first, and those of equal size in the order given |
| DeltaScheduler.BelowCounts | src/deltarpms.c:413-417 | a package is kept, as often as it is given, iff it is smaller than max_delta_rpm_size |
| DeltaScheduler.EveryDeltaRunCompletes | src/deltarpms.c:376-480 | with max_delta_rpm_size <= max_work_size every run ends having pushed exactly the packages below the limit, each as often as given |
| DeltaScheduler.DeltaThreadUserData.constructor | src/deltarpms.c:402-407 | counters start at zero |
| DeltaScheduler.DeltaThreadUserData.PushFirstFit | src/deltarpms.c:444-461 | the scan pushes the first target that fits the snapshot and unlinks it, or nothing: the producer's step |
| DeltaScheduler.DeltaThreadUserData.Finish | src/deltarpms.c:351-356 | the end of a job is the completion step |
| DeltaCandidates.GenerateDeltas | src/deltarpms.c:283-343 | the loops over one directory use the first num_deltas candidates that succeed, in candidate order; all when num_deltas is not positive |
| DeltaCandidates.OrderedIsNewestFirst | src/deltarpms.c:286-324 | candidates are exactly the readable files named after the target that hold an older package of its name and architecture; they are tried newest first, equal versions in the order of the list of names |
| DeltaCandidates.EligibleIsOlder | src/deltarpms.c:287-319 | a file is eligible iff its name begins with the target's name and it can be read and holds a package of that name and the target's architecture that is older than the target |
| DeltaCandidates.NewestAreUsed | src/deltarpms.c:326-343 | at most num_deltas deltas, and a file from which one could be made is passed over only for enough files that are not older |
| Versions.CompareValuesLaws | src/misc.c:980-990 | comparison with NULL before every string is a total preorder |
| Versions.CmpEvrIsTotalPreorder | src/misc.c:1315-1330 | so is the comparison of epoch, version and release, a missing epoch read as "0" |
| Versions.CompareValuesMeaning | src/misc.c:980-990 | negative iff the first string is missing and the second is not, or is the lower version; zero iff both are missing or the same version |
| Versions.MissingEpochIsZero | src/misc.c:1315-1330 | a missing epoch compares as "0" on either side |
| Versions.CmpEvrMeaning | src/misc.c:1315-1330 | the epoch decides, then the version, then the release |
| Strings.Compare0IsTotalOrder | src/createrepo_c.c:121-130 | `g_strcmp0`, the order behind all string comparisons, is a total order |
| Strings.Compare0Meaning | src/createrepo_c.c:121-130 | `g_strcmp0` is negative iff the first string stands before the second in the dictionary, NULL before all strings, and positive iff it stands behind |
| Sorting.SortSorts | src/repomd.c:954-961 | sorting by a comparator that is a preorder gives a sorted list of the same elements |
| Sorting.SortIsStableSort | src/repomd.c:954-961 | and elements that compare as equal keep their order |
| Sorting.SortPutsInOrder | src/createrepo_c.c:1523 | sorting by any comparator, even a circular one, leaves no two neighbours out of order |
| Sorting.SortDescendingSorts | src/deltarpms.c:321-324 | prepending, sorting and reversing is a stable sort, largest first |
| Sorting.SortedIsUnique | src/createrepo_c.c:317 | elements that the comparator tells apart have only one sorted order |
| Nevra.ScanFilename | src/misc.c:369-388 | the scan returns a string without '/' that is the whole path or begins right behind a '/' of it |
| Nevra.ScanLastDash | src/misc.c:1177-1192 | the backward loops split at the last '-' |
| Nevra.SplitLastMeaning | src/misc.c:1177-1192 | splitting at the last '-' gives the string back, with no '-' in the second part, or leaves a string without any |
| Nevra.ParseNevr | src/misc.c:1126-1213 | the parser as it scans is the parser as a function |
| Nevra.StrToNevrMeaning | src/misc.c:1126-1213 | for any string: only the empty one does not parse; of any other the epoch is divided off by the first ':' and the '-' around it, the rest is split at its last two '-', and with no epoch yet one is taken from before the first ':' of the version |
| Nevra.StrToNevraMeaning | src/misc.c:1228-1299 | for any string: an epoch at the end is taken off, the architecture follows the last '.', the rest is parsed as a NEVR; it fails iff the architecture holds a '-' or nothing is left of the rest |
| Nevra.NameEpochFirst | src/misc.c:1228-1299 | N-E:V-R.A parses to its fields |
| Nevra.EpochFirst | src/misc.c:1228-1299 | E:N-V-R.A parses to its fields |
| Nevra.EpochBeforeArch | src/misc.c:1228-1299 | N-V-R:E.A parses to its fields |
| Nevra.EpochLast | src/misc.c:1228-1299 | N-V-R.A:E parses to its fields |
| Nevra.FourFormsAgree | src/misc.c:1228-1299 | the four textual forms of one package parse to the same NEVRA |
| Nevra.RoundTripIff | src/package.c:147-158 | parsing what cr_package_nevra prints gives the package back, a missing epoch as "0", iff version, release and architecture hold no '-', epoch no '-' or ':', architecture no '.', and the name a ':' only after a '-' |
| Nevra.ColonInNameIsMisread | src/package.c:147-158 | a printed name p:q comes back as epoch p, name q and an epoch inside the version |
| Nevra.FilenameParses | src/misc.c:1074-1122 | N-V-R.A.rpm parses to its fields, alone or in a directory |
| Nevra.FilenameWithEpochParses | src/misc.c:1074-1122 | so does N-V-R.A.rpm:E, with the epoch E |
| Koji.IncludeKeepsChosen | src/koji.c:203-266 | looking at one more package keeps every table entry the newest of the first repository that offers its name |
| Koji.ChoiceIgnoresOrder | src/koji.c:203-266 | whatever the iteration order of each repository, an srpm name is in the table or not, from the same repository, with an equal version |
| Koji.AcceptedArePicked | src/koji.c:277-342 | accepted are exactly the packages with an allowed source rpm that, in non-simple mode, are the first of their NVRA: each occurrence, in the order they come |
| Koji.AcceptedAreAllowed | src/koji.c:277-342 | accepted packages have a source rpm that parses, is not blocked and in non-simple mode is the chosen one; no two share an NVRA then; and the NVRAs seen are theirs |
| Koji.AcceptOne | src/koji.c:277-342 | one package is accepted iff its source rpm is allowed and no accepted package has its NVRA, and only then is it recorded |
| Koji.KojiMergedReposStuff.Prepare | src/koji.c:173-275 | after reading the repositories up to the first unloadable one, the table holds, for exactly the source rpm names they offer, a newest one of the first repository that offers it |
| Koji.KojiMergedReposStuff.ReadRepo | src/koji.c:203-266 | reading one more repository keeps that |
| Koji.KojiMergedReposStuff.IncludePackage | src/koji.c:203-266 | one package enters the table iff its name is new, or it is newer and from the same repository |
| Koji.KojiMergedReposStuff.Allowed | src/koji.c:277-342 | accepts iff the source rpm is NULL, or it parses, its name is not blocked and, in non-simple mode, the table holds this very string for the name, and in non-simple mode the NVRA has not been seen; and records the NVRA then and only then |
| Koji.AllowedIsMayPass | src/koji.c:282-326 | the tests on the source rpm accept exactly NULL and names that parse, are not blocked and are the chosen ones |
| Koji.SrpmFields | src/koji.c:213-234 | of a usual source rpm N-V-R.A.rpm the name is N and the version compared is V-R without an epoch |
| Koji.SrpmFieldsWithEpoch | src/koji.c:213-234 | with an epoch behind it that epoch is compared too |
| Koji.NvraParses | src/package.c:140-145 | the NVRA under which a package is remembered parses back to its name, version, release and architecture |
| Archs.ProcessArchlist | src/mergerepo_c.c:246-265 | the loop over the command line's architectures |
| Archs.AppendArchMembers | src/mergerepo_c.c:142-202 | append_arch adds nothing when the architecture is there, else it, its expansion and "noarch", each once |
| Archs.ArchListMeaning | src/mergerepo_c.c:142-216 | exactly what the given architectures stand for ends up in the list, each once, and the list is closed under expansion: an early return never loses one |
| Archs.ArchListIsCompatible | src/mergerepo_c.c:142-265 | with expansion the list holds exactly the compatible architectures, listed for each, of those given; without it those given and "noarch" |
| Merge.ScanMeaning | src/mergerepo_c.c:523-637 | the verdict of the scan is the policy's answer about all packages of the same architecture |
| Merge.AddFollowsKeep | src/mergerepo_c.c:514-653 | one add_package call acts on the packages of every (name, arch) as one step of the policy on that group alone, and leaves other groups unchanged |
| Merge.TableIsReference | src/mergerepo_c.c:470-653 | after any sequence of offers, the table holds for every (name, arch) exactly what the policy keeps of the packages offered for it |
| MergeResults.MergeOrder | src/mergerepo_c.c:563-577 | the merge's comparison of three parts is the epoch-version-release comparison with missing parts read as empty |
| MergeResults.MissingIsEmpty | src/misc.c:999-1006 | a missing epoch, version or release is compared as the empty string |
| MergeResults.FirstNaKeepsFirst | src/mergerepo_c.c:538-543 | the default policy keeps the first package offered |
| MergeResults.NewestNaKeepsEarliestNewest | src/mergerepo_c.c:545-561 | the timestamp policy keeps the earliest offered of those with maximal time_file |
| MergeResults.HighestNevraKeepsFirstHighest | src/mergerepo_c.c:563-595 | the highest-NEVRA policy keeps one package, of maximal version, the first offered on ties |
| MergeResults.HighestNevraIgnoresOrder | src/mergerepo_c.c:563-595 | in whatever order packages are offered, it keeps the same version |
| MergeResults.FirstNevraKeepsFirsts | src/mergerepo_c.c:597-616 | first-NEVRA keeps the first of every version, in order |
| MergeResults.FirstsAreDistinctAndComplete | src/mergerepo_c.c:597-616 | those are pairwise different, each the first of its class, and no class is lost |
| MergeResults.AllNevraKeepsAll | src/mergerepo_c.c:617-636 | keep-all keeps every package |
| MergeResults.EntriesComeFromOffers | src/mergerepo_c.c:518-647 | every entry is an offered package under its own name, with its own base URL or, lacking one, its repository's |
| MergeResults.EmptyBaseOfFirst | src/mergerepo_c.c:518-523 | an empty base URL is replaced by the repository's path for the first package of a name and kept for the next |
| MergeResults.AddKeepsPlaces | src/mergerepo_c.c:639-652 | one call: the first element of a list stays first unless it is replaced by a package of its architecture, an addition goes right behind it, and no other place changes but a replaced one; the code returned tells which of these happened |
| MergeResults.FirstStaysFirst | src/mergerepo_c.c:643-649 | after any sequence of offers a name's list begins with the architecture offered first under the name, and with that very package if the policy replaces nothing |
| MergeResults.AllNevraPlaces | src/mergerepo_c.c:639-652 | under keep-all the list is the first package offered and behind it the others, the latest first |
| MergeResults.CountIsTableSize | src/mergerepo_c.c:740-800 | for every policy but keep-all the accumulated count is the number of packages in the table |
| MergeResults.CountedIffNewClass | src/mergerepo_c.c:740-800 | under keep-all a package is counted iff nothing of its name, architecture and version was offered before |
| MergeResults.KeepAllCountsClasses | src/mergerepo_c.c:740-800 | under keep-all the count is the number of distinct (name, arch, version) classes |
| MergeRepos.AdmittedAreAccepted | src/mergerepo_c.c:489-512 | what reaches the policies is what koji_allowed accepts of the packages of a right architecture, in order |
| MergeRepos.KojiMergeAdmitsAllowed | src/mergerepo_c.c:489-512 | a Koji merge admits only allowed source rpms and right architectures, and in non-simple mode no NVRA twice |
| MergeRepos.AdmittedCarryChosen | src/koji.c:173-342 | in a non-simple merge after `koji_stuff_prepare` every admitted package with a source rpm carries one of the first repository that offers that name, the newest there, and not a blocked one |
| MergeRepos.ChosenAreAdmitted | src/koji.c:277-342 | the converse: a package of a right architecture without a source rpm, or with the chosen one of a name that is not blocked, is admitted, or one with its NVRA is |
| MergeRepos.SimpleAdmits | src/koji.c:277-342 | in simple mode every package of a right architecture is admitted whose source rpm is NULL, or parses and is not blocked |
| MergeRepos.AdmittedWithoutKoji | src/mergerepo_c.c:489-503 | without Koji exactly the packages of a right architecture are admitted |
| MergeRepos.AllOffersAre | src/mergerepo_c.c:735-767 | offered are the packages of the readable repositories one after the other, each with its own base URL and with its repository's path, or none if base URLs are omitted or it is the first repository of a Koji merge |
| MergeRepos.EveryPackageIsMerged | src/mergerepo_c.c:735-800 | without Koji, every package of a right architecture in a readable repository ends up with an entry of its name and architecture |
| MergeRepos.Merged.Add | src/mergerepo_c.c:470-653 | add_package with its filters and its scan is the specification's step on the table and the Koji state |
| MergeRepos.Merged.MergeRepo | src/mergerepo_c.c:742-798 | one repository: its packages are merged in turn and the added ones counted |
| MergeRepos.Merged.MergeAllRepos | src/mergerepo_c.c:659-831 | the whole merge: table, Koji state and count are those of the offers of all repositories before the first that is unusable, every admitted package has an entry of its name and architecture, and the result is -1 iff the unusable one cannot be loaded |
| LoadMetadata.CbData.PrimaryPkgcb | src/load_metadata.c:210-290 | the callback stores, ignores or blocks as the specification's step does |
| LoadMetadata.ParsingMeaning | src/load_metadata.c:243-290 | after any list of packages an id is blocked iff its packages disagree on mtime or size, and otherwise its first package is stored; never both |
| LoadMetadata.BlockedForever | src/load_metadata.c:235-240 | a blocked id is never stored again during the load |
| LoadMetadata.OnlyConsideredCount | src/load_metadata.c:228-233 | packages not on the list leave no trace |
| LoadMetadata.PkgKeyIsOrder | src/load_metadata.c:286-287 | pkgKey numbers the ids in the order of their first listing, blocked ones included |
| LoadMetadata.BasenamesAreNotCompared | src/load_metadata.c:258-276 | packages that differ only in their basename do not block their id |
| LoadMetadata.BlocksAsAnnouncedIff | src/load_metadata.c:258-279 | an id is blocked as the messages announce (basename, mtime or size differ), unless exactly: all its considered packages agree on mtime and size and two have different basenames |
| LoadMetadata.CbData.NewPkgcb | src/load_metadata.c:292-342 | the callback attaches data once per stored id and stage, and the two stages do not affect each other |
| LoadMetadata.FirstListingIsAttached | src/load_metadata.c:292-342 | filelists and changelogs of a stored package come from the first listing of its id; an id that is not stored gets none |
| LoadMetadata.KeyOfIsKey | src/load_metadata.c:584-608 | the key of a package: what follows the last '/' of its href, the href without all "./" at its beginning, its id, or its name |
| LoadMetadata.Metadata.LoadXml | src/load_metadata.c:573-654 | the re-keying loops over the parsed packages and the ignored keys compute the specification's table, and every entry stands under its package's key |
| LoadMetadata.RekeyMeaning | src/load_metadata.c:610-646 | each key holds its earlier entry or the first iterated package, and is to be dropped iff some package disagrees with that one and the action is not KEEPFIRST |
| LoadMetadata.RemoveAllMeaning | src/load_metadata.c:573-654 | REMOVEALL: a touched key survives iff the earlier entry and all new packages under it agree on time_file, size_package, pkgId and basename; untouched keys are unchanged |
| LoadMetadata.RemoveAllIgnoresOrder | src/load_metadata.c:573-654 | REMOVEALL gives the same keys, with agreeing packages, for every iteration order |
| LoadMetadata.KeepFirstMeaning | src/load_metadata.c:610-646 | KEEPFIRST: entries of earlier loads are never replaced or dropped, and every other key is taken over |
| LoadMetadata.LoadKeepsEarlierIff | src/load_metadata.c:210-654 | a whole REMOVEALL load, in terms of the listing: the entry an earlier load left stays iff all taken packages under its key agree with it (taken: the first of an id whose listed packages agree on mtime and size) |
| LoadMetadata.LoadTakesOnlyIff | src/load_metadata.c:210-654 | a new key is filled iff exactly one taken package has it, and with that package |
| LoadMetadata.LoadIsDetermined | src/load_metadata.c:573-654 | so the table after the load is the same for every walk of the parsed packages |
| LoadMetadata.LoadKeepsFirst | src/load_metadata.c:210-654 | a whole KEEPFIRST load: earlier entries stay, and a new key is filled iff a taken package has it, with one of those |
| Repomd.Repomd.GetRecord | src/repomd.c:891-904 | finds the first record of the type; a NULL type is never found |
| Repomd.Repomd.SetRecord | src/repomd.c:806-821 | all records of a non-NULL type are removed and the new one is the last |
| Repomd.SetRecordReplaces | src/repomd.c:806-821 | afterwards the record is there, no other of its type is, and all records of other types are |
| Repomd.SetRecordKeepsDistinctIff | src/repomd.c:806-821 | types stay pairwise distinct, except exactly when a second record without a type is added |
| Repomd.SetAllKeepsLast | src/repomd.c:806-821 | any series of calls with typed records leaves distinct types and, of each type, the record set last |
| Repomd.RecordCmpIsTotalOrder | src/repomd.c:906-951 | record_cmp is a total order on type, location and base |
| Repomd.RecordCmpMeaning | src/repomd.c:906-951 | a record comes before another iff its type is earlier among primary, filelists, other, their databases and their zchunk files, or one of these and the other is not, or otherwise by type, location and base in the dictionary |
| Repomd.Repomd.SortAll | src/repomd.c:954-961 | afterwards the list is sorted by record_cmp, has the same records, and records that compare as equal are in the order they had |
| Repomd.SortRecordsSorts | src/repomd.c:954-961 | sorted, and the same records |
| Repomd.RecordOrderIsUnique | src/repomd.c:929-961 | with distinct types only one sorted order exists, so the sorting algorithm does not matter |
| Repomd.Repomd.Compare | src/repomd.c:964-1101 | the nested loops answer the specification's comparison |
| Repomd.AllFound | src/repomd.c:984-1098 | the loops with the found flag: equal lengths and every element matched |
| Repomd.RecordScanIsEquality | src/repomd.c:1039-1098 | with distinct types in the first list the one-way scan accepts iff both lists hold the same records up to order, on all compared fields |
| Repomd.RecordScanIsSymmetric | src/repomd.c:1039-1098 | so an accepted list has distinct types too, and the comparison is symmetric |
| Repomd.ScanIsEquality | src/repomd.c:981-1098 | on any of the lists, without duplicates in the first, equal lengths and the one-way scan force a bijection |
| Repomd.RepeatIsNotNoticed | src/repomd.c:981-1098 | on any of the lists, an element listed twice in the first hides a stranger in the second |
| Repomd.TagScanIsNotSymmetric | src/repomd.c:981-998 | a tag listed twice makes the comparison one-way |
| Repomd.CompareIsEqualityUpToOrder | src/repomd.c:964-1101 | when the first repomd lists nothing twice, the whole comparison is equality up to order of tags, records and content hash |
| Repomd.ComparisonIsExactIff | src/repomd.c:964-1101 | for repomd files of any origin: whatever the first is compared with, only what is the same up to order is accepted, iff it lists no tag twice and no two records that agree on all compared fields |
| Repomd.DistinctTypesAreCompared | src/repomd.c:964-1101 | a list of records with distinct types, as set_record builds it, is compared exactly |
| Repomd.SortingMakesEqualListsIdentical | src/repomd.c:954-1101 | two record lists compare equal iff sorting both gives the same sequence of compared fields |
| Changelog.BuildChangelogs | src/parsehdr.c:626-671 | the loop with its limit and its inner bumping loop computes the specification's list |
| Changelog.LengthIsLimited | src/parsehdr.c:630-633 | min(count, limit) entries, all of them for -1, none for other limits that are not positive |
| Changelog.BumpMeaning | src/parsehdr.c:658-666 | for any list, bumping raises by one a number of entries from the head, and no others |
| Changelog.RunLengthIs | src/parsehdr.c:658-666 | their dates are those an int counts from the given time on, and the next date is not |
| Changelog.BumpIsRaise | src/parsehdr.c:658-666 | short of the end of the int range, bumping moves each entry to the first later date that is free |
| Changelog.BuildIsSpread | src/parsehdr.c:626-671 | with non-increasing times that do not overrun the int, the list after every turn is the reference: the last entry taken keeps its date, each older one gets the first free date not before its own |
| Changelog.DatesArePushedApart | src/parsehdr.c:626-671 | it is then strictly increasing from head to tail, an entry raised by at most the number of later ones |
| Changelog.IncreasingIff | src/parsehdr.c:626-671 | the list is strictly increasing after every turn iff the times are non-increasing and no repeated time is beyond the int range or crowds all dates from itself to the one after the largest int |
| Changelog.LateDatesStayEqual | src/parsehdr.c:658-666 | two equal times beyond the int range stay equal |
| Changelog.LastDatesStayEqual | src/parsehdr.c:658-666 | of three times equal to the largest int two end up equal |
| PackedFiles.PackageFilesToHash | src/sqlite.c:897-943 | one entry per directory that has files, packing the names and types of its files in order |
| PackedFiles.PackedColumns | src/sqlite.c:954-955 | the files foo, bar, dir and g, of type file, none, dir and ghost, are packed as "foo/bar/dir/g" and "ffdg" |
| PackedFiles.RoundTripIff | src/sqlite.c:924-939 | a directory's packed strings decode to its files in order iff no name holds a '/' and every type is empty, file, dir or ghost |
| PackedFiles.HashConservesFilesIff | src/sqlite.c:897-943 | decoding all directories of the hash table, in any order, gives exactly the package's files, each once, iff the same holds of all of them |
| PackedFiles.TrimKey | src/sqlite.c:963-974 | the loop over the end of a directory's key |
| PackedFiles.DirNamesCollideIff | src/sqlite.c:963-974 | two directories are written under one name iff they differ by trailing '/'s only, or both are the empty one or "." |
| PackedFiles.DatabaseConservesFilesIff | src/sqlite.c:897-982 | the rows of the database decode to exactly the package's files, under the trimmed directory names, iff the same holds of all files |
| PackedFiles.SlashIsMistaken | src/sqlite.c:924-939 | the files "a/b", "c" and the files "a", "b/c" of a directory are packed the same |
| PackedFiles.UnknownTypeIsMistaken | src/sqlite.c:934-939 | of two files, which one has a type without a letter leaves no trace |

## Left out

- KeepLast.DelayedDumpMain: the accounting at the end of `main` is stated for runs in which every XML dump succeeds,
  because after a failed one the run hangs or, when all later dumps fail too, ends with its counters short of the
  task count; `DelayedDump.DelayedDumpRun` and `DelayedDump.RunEndsIff` say so.
* XML generation and parsing, compression, the sqlite statements, curl, librpm, OpenSSL, libmodulemd and drpm: foreign
  libraries. Loading a package, dumping its XML and making a delta succeed or fail as the configuration says.
* The algorithm of `rpmvercmp`: librpm is not part of this model, only the laws of a total preorder are used.
* GLib itself: the thread pool starts tasks in push order; `g_slist_sort` and `g_list_insert_sorted` are stable. Of
  `g_array_sort` with a comparator that is no order only this is assumed: no two neighbours are left out of order.
* Memory management, reference counts and the freeing of strings.
* The C memory model: unlocked reads of the counters are atomic. Spurious wake-ups need no step of their own, as the
  condition is tested again.
* `had_errors`, error messages and logging; a failed write to an output stream is not noticed by the protocol either.
* Assertions on zero build times in `buildtimesort`, and NULL names and hrefs, where the program would crash.
* Overflow of 64-bit sums in the delta scheduler. The overflow of the int `tmp_time` in the changelog loop, which C
  leaves undefined, is taken to wrap around.
* Trailing spaces of changelog authors.
* Several delta directories per job, and the delta files that drpm writes.
* The substitution of packages from a noarch repository, module metadata, groups and update information in
  mergerepo_c; the removal of merged packages from the table they came from; URL prefix replacement; pkgorigins.
* The record list of repomd.xml on disk, timestamps, checksums and renaming of files.
* Directory walking, caches of checksums, symlinks, retention of old metadata, lock directories, signals, command lines.
