/** How packages get their task ids (`task_cmp` and `fill_pool` in src/createrepo_c.c), and what that means for
    the output of the whole program. */
module FillPool {
  import opened Basics
  import opened Sorting
  import opened Strings
  import opened Dumper
  import opened DumperProgress

  datatype PoolTask = PoolTask(filename: Option<string>, path: Option<string>)

  function TaskCmp(a: PoolTask, b: PoolTask): int {
    var ret := Compare0(a.filename, b.filename);
    if ret != 0 then ret else Compare0(a.path, b.path)
  }

  function SortTasks(tasks: seq<PoolTask>): seq<PoolTask> {
    Sort(TaskCmp, tasks)
  }

  /** The tasks that the directory walk found, sorted and pushed with consecutive ids. */
  method Fill(found: seq<PoolTask>, taskCount: nat) returns (pushed: seq<(nat, PoolTask)>, count: nat)
    ensures count == taskCount + |found| && |pushed| == |found|
    ensures |SortTasks(found)| == |found|
    ensures forall i :: 0 <= i < |pushed| ==> pushed[i] == (taskCount + i, SortTasks(found)[i])
  {
    var tasks := SortTasks(found);
    SortKeeps(TaskCmp, found);
    pushed, count := [], taskCount;
    for i := 0 to |tasks|
      invariant |pushed| == i && count == taskCount + i
      invariant forall j :: 0 <= j < i ==> pushed[j] == (taskCount + j, tasks[j])
    {
      pushed := pushed + [(count, tasks[i])];
      count := count + 1;
    }
  }

  /** The tasks of all input directories: each directory is walked, sorted and pushed by itself. */
  function AllTasks(dirs: seq<seq<PoolTask>>): seq<PoolTask> {
    if dirs == [] then [] else AllTasks(dirs[..|dirs| - 1]) + SortTasks(dirs[|dirs| - 1])
  }

  /** The loop of `main` over the input directories; the ids run on. */
  method FillAll(dirs: seq<seq<PoolTask>>) returns (pushed: seq<(nat, PoolTask)>, taskCount: nat)
    ensures taskCount == |pushed| == |AllTasks(dirs)|
    ensures forall i :: 0 <= i < |pushed| ==> pushed[i] == (i, AllTasks(dirs)[i])
  {
    pushed, taskCount := [], 0;
    for m := 0 to |dirs|
      invariant taskCount == |pushed| == |AllTasks(dirs[..m])|
      invariant forall i :: 0 <= i < |pushed| ==> pushed[i] == (i, AllTasks(dirs[..m])[i])
    {
      AllTasksStep(dirs, m);
      var more: seq<(nat, PoolTask)>;
      more, taskCount := Fill(dirs[m], taskCount);
      pushed := pushed + more;
    }
    assert dirs[..|dirs|] == dirs;
  }

  lemma AllTasksStep(dirs: seq<seq<PoolTask>>, m: nat)
    requires m < |dirs|
    ensures AllTasks(dirs[..m + 1]) == AllTasks(dirs[..m]) + SortTasks(dirs[m])
  {
    assert dirs[..m + 1][..m] == dirs[..m];
  }

  // ---------------------------------------------------------------- the order of the tasks

  lemma TaskCmpIsTotalOrder(a: PoolTask, b: PoolTask, c: PoolTask)
    ensures TaskCmp(b, a) == -TaskCmp(a, b)
    ensures TaskCmp(a, b) <= 0 && TaskCmp(b, c) <= 0 ==> TaskCmp(a, c) <= 0
    ensures TaskCmp(a, b) == 0 <==> a == b
  {
    Compare0IsTotalOrder(a.filename, b.filename, c.filename);
    Compare0IsTotalOrder(c.filename, a.filename, b.filename);
    Compare0IsTotalOrder(b.filename, c.filename, a.filename);
    Compare0IsTotalOrder(a.path, b.path, c.path);
  }

  /** By file name, then by path. */
  ghost predicate TaskBefore(a: PoolTask, b: PoolTask) {
    StandsBefore(a.filename, b.filename) || (a.filename == b.filename && StandsBefore(a.path, b.path))
  }

  /** A task stands before another iff its file name does in the dictionary or, with the same file name, its
      path does. */
  lemma TaskCmpMeaning(a: PoolTask, b: PoolTask)
    ensures TaskCmp(a, b) < 0 <==> TaskBefore(a, b)
  {
    Compare0Meaning(a.filename, b.filename);
    Compare0Meaning(a.path, b.path);
  }

  lemma TaskCmpIsPreorder()
    ensures Preorder(TaskCmp)
  {
    forall a: PoolTask, b: PoolTask, c: PoolTask
      ensures TaskCmp(a, b) <= 0 && TaskCmp(b, c) <= 0 ==> TaskCmp(a, c) <= 0
      ensures TaskCmp(a, b) < 0 <==> TaskCmp(b, a) > 0
    {
      TaskCmpIsTotalOrder(a, b, c);
    }
  }

  lemma SortTasksSorts(tasks: seq<PoolTask>)
    ensures Sorted(TaskCmp, SortTasks(tasks)) && multiset(SortTasks(tasks)) == multiset(tasks)
  {
    TaskCmpIsPreorder();
    SortSorts(TaskCmp, tasks);
  }

  /** The same packages have only one sorted order: neither the walk nor the sorting algorithm matters. */
  lemma TaskOrderIsUnique(xs: seq<PoolTask>, ys: seq<PoolTask>)
    requires Sorted(TaskCmp, xs) && Sorted(TaskCmp, ys) && multiset(xs) == multiset(ys)
    ensures xs == ys
  {
    TaskCmpIsPreorder();
    forall i, j | 0 <= i < |xs| && 0 <= j < |xs| && TaskCmp(xs[i], xs[j]) == 0
      ensures xs[i] == xs[j]
    {
      TaskCmpIsTotalOrder(xs[i], xs[j], xs[j]);
    }
    SortedIsUnique(TaskCmp, xs, ys);
  }

  // ---------------------------------------------------------------- the whole program

  /** The run of the dumper over the tasks of all directories; `load` is what becomes of each package. */
  function ConfigFor(load: PoolTask -> Outcome, dirs: seq<seq<PoolTask>>, workers: nat, filelistsExt: bool): Config {
    Config(Mapped(AllTasks(dirs), load), workers, filelistsExt)
  }

  /** The packages of a stream, in the order they were written. */
  function Written(tasks: seq<PoolTask>, log: seq<Entry>): seq<PoolTask>
    requires forall i :: 0 <= i < |log| ==> log[i].id < |tasks|
  {
    seq(|log|, i requires 0 <= i < |log| => tasks[log[i].id])
  }

  /** Those of the tasks that load, in order. */
  function Loading(load: PoolTask -> Outcome, tasks: seq<PoolTask>): seq<PoolTask> {
    if tasks == [] then []
    else
      var last := tasks[|tasks| - 1];
      Loading(load, tasks[..|tasks| - 1]) + if load(last).Loaded? then [last] else []
  }

  /** Directory by directory, those that load. */
  function LoadingOf(load: PoolTask -> Outcome, dirs: seq<seq<PoolTask>>): seq<PoolTask> {
    if dirs == [] then [] else LoadingOf(load, dirs[..|dirs| - 1]) + Loading(load, SortTasks(dirs[|dirs| - 1]))
  }

  /** A finished run lists on every stream, one input directory after the other, the packages that load, each as
      often as it was found in the directory, sorted by file name and path within the directory. */
  lemma StreamsAreSorted(load: PoolTask -> Outcome, dirs: seq<seq<PoolTask>>, workers: nat, ext: bool,
                         run: seq<State>, log: seq<Entry>)
    requires workers > 0 && IsMaximalRun(ConfigFor(load, dirs, workers, ext), run)
    requires log in run[|run| - 1].shared.logs
    ensures var tasks := AllTasks(dirs);
      && (forall i :: 0 <= i < |log| ==> log[i].id < |tasks|)
      && Written(tasks, log) == LoadingOf(load, dirs)
    ensures forall m :: 0 <= m < |dirs| ==> IsSortedLoading(load, dirs[m], Loading(load, SortTasks(dirs[m])))
  {
    var cfg := ConfigFor(load, dirs, workers, ext);
    var tasks := AllTasks(dirs);
    EveryMaximalRunCompletes(cfg, run);
    WrittenIsLoading(load, tasks, cfg.outcomes, |tasks|);
    assert tasks[..|tasks|] == tasks;
    LoadingOfAll(load, dirs);
    forall m | 0 <= m < |dirs|
      ensures IsSortedLoading(load, dirs[m], Loading(load, SortTasks(dirs[m])))
    {
      LoadingIsSorted(load, dirs[m]);
    }
  }

  /** What was found in a directory and loads, each as often as it was found, sorted. */
  ghost predicate IsSortedLoading(load: PoolTask -> Outcome, found: seq<PoolTask>, written: seq<PoolTask>) {
    && (forall i, j :: 0 <= i < j < |written| ==> written[i] == written[j] || TaskBefore(written[i], written[j]))
    && forall t :: multiset(written)[t] == if load(t).Loaded? then multiset(found)[t] else 0
  }

  lemma {:induction false} LoadingAppend(load: PoolTask -> Outcome, xs: seq<PoolTask>, ys: seq<PoolTask>)
    ensures Loading(load, xs + ys) == Loading(load, xs) + Loading(load, ys)
  {
    if ys == [] {
      assert xs + ys == xs;
    } else {
      var n := |ys| - 1;
      LoadingAppend(load, xs, ys[..n]);
      assert (xs + ys)[..|xs + ys| - 1] == xs + ys[..n];
      Associative(Loading(load, xs), Loading(load, ys[..n]), if load(ys[n]).Loaded? then [ys[n]] else []);
    }
  }

  lemma {:induction false} LoadingOfAll(load: PoolTask -> Outcome, dirs: seq<seq<PoolTask>>)
    ensures Loading(load, AllTasks(dirs)) == LoadingOf(load, dirs)
  {
    if dirs != [] {
      var n := |dirs| - 1;
      LoadingOfAll(load, dirs[..n]);
      LoadingAppend(load, AllTasks(dirs[..n]), SortTasks(dirs[n]));
    }
  }

  lemma LoadingIsSorted(load: PoolTask -> Outcome, found: seq<PoolTask>)
    ensures IsSortedLoading(load, found, Loading(load, SortTasks(found)))
  {
    SortTasksSorts(found);
    LoadingStaysSorted(load, SortTasks(found));
    LoadingCounts(load, SortTasks(found));
    var written := Loading(load, SortTasks(found));
    forall i, j | 0 <= i < j < |written|
      ensures written[i] == written[j] || TaskBefore(written[i], written[j])
    {
      assert TaskCmp(written[i], written[j]) <= 0;
      TaskCmpMeaning(written[i], written[j]);
      TaskCmpIsTotalOrder(written[i], written[j], written[j]);
    }
  }

  lemma {:induction false} LoadingStaysSorted(load: PoolTask -> Outcome, tasks: seq<PoolTask>)
    requires Sorted(TaskCmp, tasks)
    ensures Sorted(TaskCmp, Loading(load, tasks))
    ensures forall t :: t in Loading(load, tasks) ==> t in tasks
  {
    if tasks != [] {
      var n := |tasks| - 1;
      LoadingStaysSorted(load, tasks[..n]);
      var before := Loading(load, tasks[..n]);
      forall i | 0 <= i < |before|
        ensures TaskCmp(before[i], tasks[n]) <= 0
      {
        assert before[i] in tasks[..n];
        var k :| 0 <= k < n && tasks[k] == before[i];
      }
    }
  }

  lemma {:induction false} WrittenIsLoading(load: PoolTask -> Outcome, tasks: seq<PoolTask>, outcomes: seq<Outcome>, n: nat)
    requires n <= |tasks| == |outcomes| && forall i :: 0 <= i < |tasks| ==> outcomes[i] == load(tasks[i])
    ensures forall i :: 0 <= i < |Sequential(outcomes, n)| ==> Sequential(outcomes, n)[i].id < |tasks|
    ensures Written(tasks, Sequential(outcomes, n)) == Loading(load, tasks[..n])
  {
    if n > 0 {
      WrittenIsLoading(load, tasks, outcomes, n - 1);
      assert tasks[..n][..n - 1] == tasks[..n - 1];
    }
  }

  lemma {:induction false} LoadingCounts(load: PoolTask -> Outcome, tasks: seq<PoolTask>)
    ensures forall t :: multiset(Loading(load, tasks))[t] == if load(t).Loaded? then multiset(tasks)[t] else 0
  {
    if tasks != [] {
      LoadingCounts(load, tasks[..|tasks| - 1]);
      assert tasks == tasks[..|tasks| - 1] + [tasks[|tasks| - 1]];
    }
  }

  lemma {:induction false} AllTasksFollow(dirs: seq<seq<PoolTask>>, dirs': seq<seq<PoolTask>>)
    requires |dirs| == |dirs'| && forall m :: 0 <= m < |dirs| ==> multiset(dirs[m]) == multiset(dirs'[m])
    ensures AllTasks(dirs) == AllTasks(dirs')
  {
    if dirs != [] {
      var n := |dirs| - 1;
      AllTasksFollow(dirs[..n], dirs'[..n]);
      SortTasksSorts(dirs[n]);
      SortTasksSorts(dirs'[n]);
      TaskOrderIsUnique(SortTasks(dirs[n]), SortTasks(dirs'[n]));
    }
  }

  /** Reproducible output: two finished runs over the same packages write the same to every stream, whatever
      order the walk of each directory found them in, whatever the number of workers and the schedule. */
  lemma OutputIsReproducible(load: PoolTask -> Outcome, ext: bool,
                             dirs: seq<seq<PoolTask>>, workers: nat, run: seq<State>,
                             dirs': seq<seq<PoolTask>>, workers': nat, run': seq<State>)
    requires |dirs| == |dirs'| && forall m :: 0 <= m < |dirs| ==> multiset(dirs[m]) == multiset(dirs'[m])
    requires workers > 0 && IsMaximalRun(ConfigFor(load, dirs, workers, ext), run)
    requires workers' > 0 && IsMaximalRun(ConfigFor(load, dirs', workers', ext), run')
    ensures AllTasks(dirs) == AllTasks(dirs')
    ensures run[|run| - 1].shared.logs == run'[|run'| - 1].shared.logs
    ensures run[|run| - 1].shared.packageCount == run'[|run'| - 1].shared.packageCount
  {
    AllTasksFollow(dirs, dirs');
    EveryMaximalRunCompletes(ConfigFor(load, dirs, workers, ext), run);
    EveryMaximalRunCompletes(ConfigFor(load, dirs', workers', ext), run');
    var logs, logs' := run[|run| - 1].shared.logs, run'[|run'| - 1].shared.logs;
    assert forall k :: 0 <= k < |logs| ==> logs[k] in logs && logs'[k] in logs';
  }
}
