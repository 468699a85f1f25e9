/** The delta scheduler of src/deltarpms.c (`cr_deltarpms_parallel_deltas`): one producer admits jobs under
    a bound on running jobs and a bound on their total size, deciding on a snapshot that may be stale. */
module DeltaScheduler {
  import opened Basics
  import opened Sorting

  datatype Target = Target(name: string, size: int)

  datatype Config = Config(workers: nat, maxWork: int)

  /** Where the producer stands: before its loop, scanning with a snapshot of active_work_size and
      active_tasks, waiting for active_tasks to differ from the snapshot, or waiting for the pool to end. */
  datatype Producer = AtLoop | Scanning(work: int, tasks: int) | Waiting(tasks: int) | Closing

  /** `running` are the jobs pushed and not finished; `pushed` records all pushes in order. */
  datatype State = State(
    targets: seq<Target>,
    activeWork: int,
    activeTasks: int,
    running: seq<Target>,
    pushed: seq<Target>,
    producer: Producer)

  function FirstFit(targets: seq<Target>, work: int, maxWork: int): (i: nat)
    ensures i <= |targets|
    ensures i < |targets| ==> work + targets[i].size <= maxWork
    ensures forall j :: 0 <= j < i ==> work + targets[j].size > maxWork
  {
    if targets == [] || work + targets[0].size <= maxWork then 0 else 1 + FirstFit(targets[1..], work, maxWork)
  }

  function Init(targets: seq<Target>): State {
    State(targets, 0, 0, [], [], AtLoop)
  }

  predicate ProducerEnabled(cfg: Config, s: State) {
    match s.producer
    case AtLoop => s.targets == [] || s.activeTasks != cfg.workers
    case Scanning(_, _) => true
    case Waiting(tasks) => s.activeTasks != tasks
    case Closing => false
  }

  function ProducerStep(cfg: Config, s: State): State
    requires ProducerEnabled(cfg, s)
  {
    match s.producer
    case AtLoop =>
      if s.targets == [] then s.(producer := Closing)
      else s.(producer := Scanning(s.activeWork, s.activeTasks))
    case Scanning(work, tasks) =>
      var i := FirstFit(s.targets, work, cfg.maxWork);
      if i == |s.targets| then s.(producer := Waiting(tasks))
      else
        var t := s.targets[i];
        State(RemoveAt(s.targets, i), s.activeWork + t.size, s.activeTasks + 1,
              s.running + [t], s.pushed + [t], AtLoop)
    case Waiting(_) => s.(producer := AtLoop)
  }

  function FinishStep(s: State, i: nat): State
    requires i < |s.running|
  {
    s.(activeWork := s.activeWork - s.running[i].size,
       activeTasks := s.activeTasks - 1,
       running := RemoveAt(s.running, i))
  }

  ghost predicate Next(cfg: Config, s: State, s': State) {
    || (ProducerEnabled(cfg, s) && s' == ProducerStep(cfg, s))
    || (exists i: nat :: i < |s.running| && s' == FinishStep(s, i))
  }

  ghost predicate IsRun(cfg: Config, kept: seq<Target>, run: seq<State>) {
    && run != []
    && run[0] == Init(kept)
    && forall i: nat :: i + 1 < |run| ==> Next(cfg, run[i], run[i + 1])
  }

  ghost predicate IsStuck(cfg: Config, s: State) {
    forall s' {:trigger Next(cfg, s, s')} :: !Next(cfg, s, s')
  }

  /** A run that cannot go on. */
  ghost predicate IsMaximalRun(cfg: Config, kept: seq<Target>, run: seq<State>) {
    IsRun(cfg, kept, run) && IsStuck(cfg, run[|run| - 1])
  }

  predicate Final(s: State) {
    s.producer == Closing && s.running == []
  }

  // ---------------------------------------------------------------- invariant

  function TotalSize(ts: seq<Target>): int {
    if ts == [] then 0 else ts[0].size + TotalSize(ts[1..])
  }

  lemma {:induction false} TotalSizeAppend(a: seq<Target>, b: seq<Target>)
    ensures TotalSize(a + b) == TotalSize(a) + TotalSize(b)
  {
    if a == [] {
      assert a + b == b;
    } else {
      TotalSizeAppend(a[1..], b);
      assert (a + b)[1..] == a[1..] + b;
    }
  }

  lemma TotalSizeRemove(ts: seq<Target>, i: nat)
    requires i < |ts|
    ensures TotalSize(RemoveAt(ts, i)) == TotalSize(ts) - ts[i].size
  {
    TotalSizeAppend(ts[..i], ts[i + 1..]);
    TotalSizeAppend(ts[..i], ts[i..]);
    assert ts == ts[..i] + ts[i..];
    assert ts[i..][1..] == ts[i + 1..];
  }

  lemma {:induction false} TotalSizeNonNegative(ts: seq<Target>)
    requires NonNegative(ts)
    ensures TotalSize(ts) >= 0
  {
    if ts != [] {
      TotalSizeNonNegative(ts[1..]);
    }
  }

  predicate NonNegative(ts: seq<Target>) {
    forall i :: 0 <= i < |ts| ==> ts[i].size >= 0
  }

  predicate AllFit(ts: seq<Target>, maxWork: int) {
    forall i :: 0 <= i < |ts| ==> ts[i].size <= maxWork
  }

  /** The counters are true, the bounds hold, and every kept target is pushed or still listed, once. */
  predicate CountersInv(cfg: Config, kept: seq<Target>, s: State) {
    && s.activeTasks == |s.running| <= cfg.workers
    && s.activeWork == TotalSize(s.running)
    && (s.running != [] ==> s.activeWork <= cfg.maxWork)
    && multiset(s.pushed) + multiset(s.targets) == multiset(kept)
    && NonNegative(s.targets) && NonNegative(s.running)
    && AllFit(s.pushed, cfg.maxWork)
  }

  /** A snapshot is never smaller than what is running now. */
  predicate ProducerInv(cfg: Config, s: State) {
    match s.producer
    case AtLoop => true
    case Scanning(work, tasks) =>
      && s.activeTasks <= tasks < cfg.workers
      && s.activeWork <= work
      && 0 <= work
      && (tasks == 0 ==> work == 0)
      && s.targets != []
    case Waiting(tasks) =>
      && s.activeTasks <= tasks < cfg.workers
      && s.targets != []
      && (tasks == 0 ==> forall i :: 0 <= i < |s.targets| ==> s.targets[i].size > cfg.maxWork)
    case Closing => s.targets == []
  }

  predicate Inv(cfg: Config, kept: seq<Target>, s: State) {
    CountersInv(cfg, kept, s) && ProducerInv(cfg, s)
  }

  lemma ProducerKeepsInv(cfg: Config, kept: seq<Target>, s: State)
    requires Inv(cfg, kept, s) && ProducerEnabled(cfg, s)
    ensures Inv(cfg, kept, ProducerStep(cfg, s))
  {
    TotalSizeNonNegative(s.running);
    if s.producer.Scanning? {
      var i := FirstFit(s.targets, s.producer.work, cfg.maxWork);
      if i < |s.targets| {
        PushKeepsInv(cfg, kept, s, i);
      }
    }
  }

  lemma PushKeepsInv(cfg: Config, kept: seq<Target>, s: State, i: nat)
    requires Inv(cfg, kept, s) && s.producer.Scanning?
    requires i < |s.targets| && i == FirstFit(s.targets, s.producer.work, cfg.maxWork)
    ensures Inv(cfg, kept, ProducerStep(cfg, s))
  {
    var s' := ProducerStep(cfg, s);
    var t := s.targets[i];
    RemoveAtMultiset(s.targets, i);
    TotalSizeAppend(s.running, [t]);
    TotalSizeNonNegative(s.running);
    PushKeepsSizes(s.targets, i, s.running, s.pushed, cfg.maxWork);
    assert multiset(s'.pushed) == multiset(s.pushed) + multiset{t};
    assert CountersInv(cfg, kept, s');
  }

  lemma PushKeepsSizes(targets: seq<Target>, i: nat, running: seq<Target>, pushed: seq<Target>, maxWork: int)
    requires i < |targets| && NonNegative(targets) && NonNegative(running) && AllFit(pushed, maxWork)
    requires targets[i].size <= maxWork
    ensures NonNegative(RemoveAt(targets, i)) && NonNegative(running + [targets[i]])
    ensures AllFit(pushed + [targets[i]], maxWork)
  {
  }

  lemma FinishKeepsInv(cfg: Config, kept: seq<Target>, s: State, i: nat)
    requires Inv(cfg, kept, s) && i < |s.running|
    ensures Inv(cfg, kept, FinishStep(s, i))
  {
    TotalSizeRemove(s.running, i);
  }

  lemma NextKeepsInv(cfg: Config, kept: seq<Target>, s: State, s': State)
    requires Inv(cfg, kept, s) && Next(cfg, s, s')
    ensures Inv(cfg, kept, s')
  {
    if ProducerEnabled(cfg, s) && s' == ProducerStep(cfg, s) {
      ProducerKeepsInv(cfg, kept, s);
    } else {
      var i: nat :| i < |s.running| && s' == FinishStep(s, i);
      FinishKeepsInv(cfg, kept, s, i);
    }
  }

  lemma {:induction false} EveryStateInv(cfg: Config, kept: seq<Target>, run: seq<State>, n: nat)
    requires IsRun(cfg, kept, run) && NonNegative(kept) && n < |run|
    ensures Inv(cfg, kept, run[n])
  {
    if n > 0 {
      EveryStateInv(cfg, kept, run, n - 1);
      assert Next(cfg, run[n - 1], run[n - 1 + 1]);
      NextKeepsInv(cfg, kept, run[n - 1], run[n]);
    }
  }

  /** In every interleaving: never more jobs than workers, active_work_size is the size of what is running
      and within max_work_size, and no target is lost or pushed twice. */
  lemma BoundsHold(cfg: Config, kept: seq<Target>, run: seq<State>, n: nat)
    requires IsRun(cfg, kept, run) && NonNegative(kept) && n < |run|
    ensures var s := run[n];
      && s.activeTasks == |s.running| <= cfg.workers
      && s.activeWork == TotalSize(s.running)
      && (s.running != [] ==> s.activeWork <= cfg.maxWork)
      && multiset(s.pushed) + multiset(s.targets) == multiset(kept)
  {
    EveryStateInv(cfg, kept, run, n);
  }

  // ---------------------------------------------------------------- progress

  ghost predicate CanMove(cfg: Config, s: State) {
    ProducerEnabled(cfg, s) || s.running != []
  }

  lemma CanMoveIsNext(cfg: Config, s: State)
    ensures CanMove(cfg, s) <==> exists s' :: Next(cfg, s, s')
  {
    if ProducerEnabled(cfg, s) {
      assert Next(cfg, s, ProducerStep(cfg, s));
    }
    if s.running != [] {
      assert Next(cfg, s, FinishStep(s, 0));
    }
  }

  lemma {:induction false} MemberOfMultiset(ts: seq<Target>, us: seq<Target>, i: nat)
    requires multiset(ts) <= multiset(us) && i < |ts|
    ensures exists j :: 0 <= j < |us| && us[j] == ts[i]
  {
    assert ts[i] in multiset(ts);
    assert ts[i] in multiset(us);
  }

  /** A state without a step is either the end or a producer waiting, with nothing running, for a target
      that can never fit. */
  lemma StuckStates(cfg: Config, kept: seq<Target>, s: State)
    requires Inv(cfg, kept, s) && cfg.workers > 0 && !CanMove(cfg, s)
    ensures Final(s) <==> AllFit(kept, cfg.maxWork)
    ensures Final(s) ==> multiset(s.pushed) == multiset(kept)
    ensures !Final(s) ==> s.producer.Waiting? && s.running == [] && s.targets != []
  {
    if Final(s) {
      forall i | 0 <= i < |kept|
        ensures kept[i].size <= cfg.maxWork
      {
        MemberOfMultiset(kept, s.pushed, i);
      }
    } else {
      MemberOfMultiset(s.targets, kept, 0);
    }
  }

  function Measure(s: State): int {
    6 * |s.targets| + |s.running| +
    match s.producer
    case AtLoop => 3 + 3 * |s.running|
    case Scanning(_, tasks) => 2 + 3 * tasks
    case Waiting(tasks) => 1 + 3 * tasks
    case Closing => 0
  }

  lemma NextDecreases(cfg: Config, kept: seq<Target>, s: State, s': State)
    requires Inv(cfg, kept, s) && Next(cfg, s, s')
    ensures 0 <= Measure(s') < Measure(s)
  {
    NextKeepsInv(cfg, kept, s, s');
    if ProducerEnabled(cfg, s) && s' == ProducerStep(cfg, s) {
      ProducerDecreases(cfg, kept, s);
    }
    MeasureIsNatural(cfg, kept, s');
  }

  lemma ProducerDecreases(cfg: Config, kept: seq<Target>, s: State)
    requires Inv(cfg, kept, s) && ProducerEnabled(cfg, s)
    ensures Measure(ProducerStep(cfg, s)) < Measure(s)
  {
  }

  lemma MeasureIsNatural(cfg: Config, kept: seq<Target>, s: State)
    requires Inv(cfg, kept, s)
    ensures 0 <= Measure(s)
  {
  }

  lemma {:induction false} RunMeasure(cfg: Config, kept: seq<Target>, run: seq<State>, n: nat)
    requires IsRun(cfg, kept, run) && NonNegative(kept) && n < |run|
    ensures 0 <= Measure(run[n]) && Measure(run[n]) + n <= 6 * |kept| + 3
  {
    if n > 0 {
      RunMeasure(cfg, kept, run, n - 1);
      EveryStateInv(cfg, kept, run, n - 1);
      assert Next(cfg, run[n - 1], run[n - 1 + 1]);
      NextDecreases(cfg, kept, run[n - 1], run[n]);
    }
  }

  /** Every run is bounded, and a run that cannot go on has pushed every kept target exactly once and seen
      all jobs end, if and only if each kept target by itself is within max_work_size. Otherwise the
      producer ends up waiting for a job to finish when none is running. */
  lemma RunEndsIff(cfg: Config, kept: seq<Target>, run: seq<State>)
    requires IsRun(cfg, kept, run) && NonNegative(kept) && cfg.workers > 0
    ensures |run| <= 6 * |kept| + 4
    ensures var s := run[|run| - 1];
      IsMaximalRun(cfg, kept, run) ==>
        && (Final(s) <==> AllFit(kept, cfg.maxWork))
        && (Final(s) ==> multiset(s.pushed) == multiset(kept))
        && (!Final(s) ==> s.producer.Waiting? && s.running == [] && s.targets != [])
  {
    var s := run[|run| - 1];
    EveryStateInv(cfg, kept, run, |run| - 1);
    RunMeasure(cfg, kept, run, |run| - 1);
    CanMoveIsNext(cfg, s);
    if !CanMove(cfg, s) {
      StuckStates(cfg, kept, s);
    }
  }

  /** One package of size 2 and a max_work_size of 1: the producer waits for a job to finish, and there is none. */
  lemma LargeTargetHangs(cfg: Config, t: Target, run: seq<State>)
    requires cfg == Config(1, 1) && t.size == 2
    requires run == [Init([t]), Init([t]).(producer := Scanning(0, 0)), Init([t]).(producer := Waiting(0))]
    ensures IsMaximalRun(cfg, [t], run) && !Final(run[2])
  {
    assert Next(cfg, run[0], run[1]) && Next(cfg, run[1], run[2]);
    CanMoveIsNext(cfg, run[2]);
  }

  /** With max_delta_rpm_size at most max_work_size the producer never waits with nothing running. */
  lemma NeverWaitsForNothing(cfg: Config, kept: seq<Target>, run: seq<State>, n: nat)
    requires IsRun(cfg, kept, run) && NonNegative(kept) && AllFit(kept, cfg.maxWork) && n < |run|
    requires run[n].producer.Waiting? && run[n].running == []
    ensures ProducerEnabled(cfg, run[n])
  {
    EveryStateInv(cfg, kept, run, n);
    MemberOfMultiset(run[n].targets, kept, 0);
  }

  // ---------------------------------------------------------------- the list of targets

  /** cmp_deltatargetpackage_sizes */
  function SizeCmp(a: Target, b: Target): int {
    if a.size < b.size then -1 else if a.size == b.size then 0 else 1
  }

  function Below(ts: seq<Target>, limit: int): seq<Target> {
    if ts == [] then []
    else Below(ts[..|ts| - 1], limit) + if ts[|ts| - 1].size < limit then [ts[|ts| - 1]] else []
  }

  lemma BelowStep(packages: seq<Target>, i: nat, limit: int)
    requires i < |packages|
    ensures Below(packages[..i + 1], limit)
      == Below(packages[..i], limit) + if packages[i].size < limit then [packages[i]] else []
  {
    assert packages[..i + 1][..i] == packages[..i];
  }

  /** The targets of one size, in list order. */
  function OfSize(ts: seq<Target>, size: int): seq<Target> {
    if ts == [] then [] else (if ts[0].size == size then [ts[0]] else []) + OfSize(ts[1..], size)
  }

  /** The producer's list: the packages below the limit, each as often as it was given and no others, the
      largest first, and those of equal size in the order they were given. */
  ghost predicate IsTargetList(targets: seq<Target>, packages: seq<Target>, limit: int) {
    && (forall i, j :: 0 <= i < j < |targets| ==> targets[i].size >= targets[j].size)
    && (forall t :: multiset(targets)[t] == if t.size < limit then multiset(packages)[t] else 0)
    && (forall size :: OfSize(targets, size) == if size < limit then OfSize(packages, size) else [])
  }

  /** The loop that builds the list. */
  method BuildTargets(packages: seq<Target>, maxDelta: int) returns (targets: seq<Target>)
    ensures IsTargetList(targets, packages, maxDelta)
  {
    targets := [];
    ghost var below := [];
    for i := 0 to |packages|
      invariant below == Below(packages[..i], maxDelta)
      invariant targets == Sort(SizeCmp, Reversed(below))
    {
      BelowStep(packages, i, maxDelta);
      if packages[i].size < maxDelta {
        InsertIsSort(SizeCmp, below, packages[i]);
        targets := Insert(SizeCmp, targets, packages[i]);
        below := below + [packages[i]];
      }
    }
    assert packages[..|packages|] == packages;
    SortedBelowIsTargetList(packages, maxDelta);
    targets := Reversed(targets);
  }

  lemma SortedBelowIsTargetList(packages: seq<Target>, limit: int)
    ensures IsTargetList(SortDescending(SizeCmp, Below(packages, limit)), packages, limit)
  {
    var below := Below(packages, limit);
    var targets := SortDescending(SizeCmp, below);
    SortDescendingSorts(SizeCmp, below);
    BelowCounts(packages, limit);
    forall i, j | 0 <= i < j < |targets|
      ensures targets[i].size >= targets[j].size
    {
      assert SizeCmp(targets[j], targets[i]) <= 0;
    }
    forall size
      ensures OfSize(targets, size) == if size < limit then OfSize(packages, size) else []
    {
      OfSizeIsClass(targets, Target("", size));
      OfSizeIsClass(below, Target("", size));
      BelowOfSize(packages, limit, size);
    }
  }

  lemma {:induction false} OfSizeIsClass(ts: seq<Target>, v: Target)
    ensures OfSize(ts, v.size) == OfClass(SizeCmp, ts, v)
  {
    if ts != [] {
      OfSizeIsClass(ts[1..], v);
    }
  }

  lemma {:induction false} OfSizeLast(ts: seq<Target>, t: Target, size: int)
    ensures OfSize(ts + [t], size) == OfSize(ts, size) + if t.size == size then [t] else []
  {
    if ts == [] {
      assert ts + [t] == [t];
    } else {
      OfSizeLast(ts[1..], t, size);
      assert (ts + [t])[1..] == ts[1..] + [t];
    }
  }

  lemma {:induction false} BelowOfSize(packages: seq<Target>, limit: int, size: int)
    ensures OfSize(Below(packages, limit), size) == if size < limit then OfSize(packages, size) else []
  {
    if packages != [] {
      var n := |packages| - 1;
      BelowOfSize(packages[..n], limit, size);
      assert packages == packages[..n] + [packages[n]];
      OfSizeLast(packages[..n], packages[n], size);
      if packages[n].size < limit {
        OfSizeLast(Below(packages[..n], limit), packages[n], size);
      } else {
        NothingAdded(Below(packages[..n], limit));
        NothingAdded(OfSize(packages[..n], size));
      }
    }
  }

  lemma NothingAdded(ts: seq<Target>)
    ensures ts + [] == ts
  {
  }

  /** A package is kept, as often as it is given, iff it is smaller than the limit. */
  lemma {:induction false} BelowCounts(packages: seq<Target>, limit: int)
    ensures forall t :: multiset(Below(packages, limit))[t] == if t.size < limit then multiset(packages)[t] else 0
  {
    if packages != [] {
      BelowCounts(packages[..|packages| - 1], limit);
      assert packages == packages[..|packages| - 1] + [packages[|packages| - 1]];
    }
  }

  /** The whole function: with max_delta_rpm_size within max_work_size, every run that cannot go on has
      pushed exactly the packages below max_delta_rpm_size, each as often as it was given. */
  lemma EveryDeltaRunCompletes(cfg: Config, packages: seq<Target>, maxDelta: int, targets: seq<Target>, run: seq<State>)
    requires IsTargetList(targets, packages, maxDelta) && NonNegative(packages)
    requires cfg.workers > 0 && maxDelta <= cfg.maxWork
    requires IsMaximalRun(cfg, targets, run)
    ensures Final(run[|run| - 1])
    ensures forall t ::
      multiset(run[|run| - 1].pushed)[t] == if t.size < maxDelta then multiset(packages)[t] else 0
  {
    forall i | 0 <= i < |targets|
      ensures 0 <= targets[i].size <= cfg.maxWork
    {
      TargetIsBelow(targets, packages, maxDelta, i);
    }
    RunEndsIff(cfg, targets, run);
  }

  lemma TargetIsBelow(targets: seq<Target>, packages: seq<Target>, limit: int, i: nat)
    requires IsTargetList(targets, packages, limit) && i < |targets|
    ensures targets[i].size < limit && targets[i] in packages
  {
    assert multiset(targets)[targets[i]] > 0;
    assert targets[i] in multiset(packages);
  }

  // ---------------------------------------------------------------- the shared counters in place

  /** `cr_DeltaThreadUserData` together with the producer's list. */
  class DeltaThreadUserData {
    var activeWorkSize: int
    var activeTasks: int
    var targets: seq<Target>

    constructor (targets: seq<Target>)
      ensures activeWorkSize == 0 && activeTasks == 0 && this.targets == targets
      ensures activeWorkSize == Init(targets).activeWork && activeTasks == Init(targets).activeTasks
      ensures this.targets == Init(targets).targets
    {
      activeWorkSize, activeTasks, this.targets := 0, 0, targets;
    }

    /** The scan of the list with a snapshot: push the first target that fits and unlink it. */
    method PushFirstFit(cfg: Config, work: int, ghost s: State) returns (pushed: Option<Target>)
      requires s.targets == targets && s.activeWork == activeWorkSize && s.activeTasks == activeTasks
      requires s.producer.Scanning? && s.producer.work == work
      modifies this
      ensures var s' := ProducerStep(cfg, s);
        && s'.targets == targets && s'.activeWork == activeWorkSize && s'.activeTasks == activeTasks
        && s'.pushed == (if pushed.Some? then s.pushed + [pushed.value] else s.pushed)
        && s'.producer == (if pushed.Some? then AtLoop else Waiting(s.producer.tasks))
    {
      pushed := None;
      var i := 0;
      while i < |targets|
        invariant i <= |targets| && unchanged(this)
        invariant forall j :: 0 <= j < i ==> work + targets[j].size > cfg.maxWork
      {
        if work + targets[i].size <= cfg.maxWork {
          pushed := Some(targets[i]);
          activeWorkSize := activeWorkSize + targets[i].size;
          activeTasks := activeTasks + 1;
          targets := targets[..i] + targets[i + 1..];
          return;
        }
        i := i + 1;
      }
    }

    /** The completion step of `cr_delta_thread`. */
    method Finish(t: Target, ghost s: State, ghost i: nat)
      requires s.targets == targets && s.activeWork == activeWorkSize && s.activeTasks == activeTasks
      requires i < |s.running| && s.running[i] == t
      modifies this
      ensures var s' := FinishStep(s, i);
        s'.targets == targets && s'.activeWork == activeWorkSize && s'.activeTasks == activeTasks
    {
      activeWorkSize := activeWorkSize - t.size;
      activeTasks := activeTasks - 1;
    }
  }
}
