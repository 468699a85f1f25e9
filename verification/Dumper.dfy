/** The ordered concurrent writer of src/dumper_thread.c as a transition system.

    A worker of the pool runs `cr_dumper_thread` for one task at a time. Every critical section, and
    every unlocked read of `id_pri`, is one step; steps of different workers interleave freely. What a
    package load or an XML dump yields is fixed per task by the configuration (`Outcome`). */
module Dumper {
  import opened Basics

  const MAX_TASK_BUFFER_LEN: nat := 20

  /** What becomes of a task: a package with its source rpm (which may be NULL), or an error. */
  datatype Outcome = Loaded(srpm: Option<string>) | Failed

  /** Streams are numbered in pipeline order: primary, filelists, (filelists-ext,) other. */
  datatype Config = Config(outcomes: seq<Outcome>, workers: nat, filelistsExt: bool) {
    function TaskCount(): nat {
      |outcomes|
    }

    function Streams(): nat {
      if filelistsExt then 4 else 3
    }
  }

  /** One package written to a stream, and whether a zchunk chunk was ended just before it. */
  datatype Entry = Entry(id: nat, endsChunk: bool)

  /** The fields of `struct UserData` that workers share; `turns` are id_pri, id_fil, (id_fex,) id_oth. */
  datatype Shared = Shared(
    turns: seq<nat>,
    logs: seq<seq<Entry>>,
    packageCount: nat,
    prevSrpm: Option<string>,
    curSrpm: Option<string>,
    buffer: seq<nat>)

  /** Where a worker stands in `cr_dumper_thread`. A `Writing` worker is inside `write_pkg` waiting for
      (or on) the turn of `stage`; `own` tells its own task from one taken out of the buffer. */
  datatype Worker =
    | Idle
    | Loading(id: nat)
    | Buffering(id: nat)
    | Writing(id: nat, stage: nat, newPkg: bool, own: bool)
    | Skipping(id: nat, stage: nat)
    | Cleanup(id: nat)
    | Draining

  /** `started` is the id of the task the pool hands out next. */
  datatype State = State(shared: Shared, started: nat, workers: seq<Worker>)

  // ---------------------------------------------------------------- critical sections

  /** `++id_<stage>` and broadcast, with nothing written (`wait_for_incremented_ids`). */
  function PassTurn(sh: Shared, stage: nat): Shared
    requires stage < |sh.turns|
  {
    sh.(turns := sh.turns[stage := sh.turns[stage] + 1])
  }

  /** The primary section also counts the package and shifts prev_srpm/cur_srpm. */
  function CountPackage(sh: Shared, srpm: Option<string>): Shared {
    sh.(packageCount := sh.packageCount + 1, prevSrpm := sh.curSrpm, curSrpm := srpm)
  }

  /** A turn of `stage` that appends the package to the stream's output. */
  function WriteTurn(sh: Shared, stage: nat, entry: Entry): Shared
    requires stage < |sh.turns| == |sh.logs|
  {
    PassTurn(sh, stage).(logs := sh.logs[stage := sh.logs[stage] + [entry]])
  }

  function InsertSorted(buffer: seq<nat>, id: nat): seq<nat> {
    if buffer == [] || id <= buffer[0] then [id] + buffer
    else [buffer[0]] + InsertSorted(buffer[1..], id)
  }

  /** The buffering test: not our turn, room in the buffer, and not the last task. */
  predicate ShouldBuffer(sh: Shared, taskCount: nat, id: nat)
    requires |sh.turns| > 0
  {
    |sh.buffer| < MAX_TASK_BUFFER_LEN && sh.turns[0] != id && taskCount > id + 1
  }

  // ---------------------------------------------------------------- the transition system

  predicate WorkerShape(cfg: Config, w: Worker) {
    match w
    case Idle | Draining => true
    case Loading(id) => id < cfg.TaskCount()
    case Buffering(id) => id < cfg.TaskCount() && cfg.outcomes[id].Loaded?
    case Writing(id, stage, _, _) => id < cfg.TaskCount() && cfg.outcomes[id].Loaded? && stage < cfg.Streams()
    case Skipping(id, stage) => id < cfg.TaskCount() && cfg.outcomes[id].Failed? && stage < cfg.Streams()
    case Cleanup(id) => id < cfg.TaskCount()
  }

  predicate WellFormed(cfg: Config, s: State) {
    && |s.shared.turns| == |s.shared.logs| == cfg.Streams()
    && |s.workers| == cfg.workers
    && (forall b :: b in s.shared.buffer ==> b < cfg.TaskCount() && cfg.outcomes[b].Loaded?)
    && forall i :: 0 <= i < |s.workers| ==> WorkerShape(cfg, s.workers[i])
  }

  function Init(cfg: Config): State {
    State(
      Shared(seq(cfg.Streams(), _ => 0), seq(cfg.Streams(), _ => []), 0, None, None, []),
      0,
      seq(cfg.workers, _ => Idle))
  }

  /** A worker waiting on a condition variable can go on only at its turn. */
  predicate Enabled(cfg: Config, s: State, w: nat)
    requires WellFormed(cfg, s) && w < |s.workers|
  {
    match s.workers[w]
    case Idle => s.started < cfg.TaskCount()
    case Writing(id, stage, _, _) => s.shared.turns[stage] == id
    case Skipping(id, stage) => s.shared.turns[stage] == id
    case _ => true
  }

  function Step(cfg: Config, s: State, w: nat): State
    requires WellFormed(cfg, s) && w < |s.workers| && Enabled(cfg, s, w)
  {
    var sh := s.shared;
    match s.workers[w]
    case Idle =>
      s.(started := s.started + 1, workers := s.workers[w := Loading(s.started)])
    case Loading(id) =>
      s.(workers := s.workers[w := if cfg.outcomes[id].Loaded? then Buffering(id) else Cleanup(id)])
    case Buffering(id) =>
      if ShouldBuffer(sh, cfg.TaskCount(), id) then
        s.(shared := sh.(buffer := InsertSorted(sh.buffer, id)), workers := s.workers[w := Idle])
      else
        s.(workers := s.workers[w := Writing(id, 0, false, true)])
    case Writing(id, stage, newPkg, own) =>
      var sh1 := if stage == 0 then CountPackage(sh, cfg.outcomes[id].srpm) else sh;
      var newPkg1 := if stage == 0 then sh1.prevSrpm != sh1.curSrpm else newPkg;
      s.(shared := WriteTurn(sh1, stage, Entry(id, newPkg1)),
         workers := s.workers[w :=
           if stage + 1 < cfg.Streams() then Writing(id, stage + 1, newPkg1, own)
           else if own then Cleanup(id) else Draining])
    case Skipping(id, stage) =>
      s.(shared := PassTurn(sh, stage),
         workers := s.workers[w := if stage + 1 < cfg.Streams() then Skipping(id, stage + 1) else Draining])
    case Cleanup(id) =>
      s.(workers := s.workers[w := if sh.turns[0] <= id then Skipping(id, 0) else Draining])
    case Draining =>
      if sh.buffer != [] && sh.buffer[0] == sh.turns[0] then
        s.(shared := sh.(buffer := sh.buffer[1..]),
           workers := s.workers[w := Writing(sh.buffer[0], 0, false, false)])
      else
        s.(workers := s.workers[w := Idle])
  }

  ghost predicate Next(cfg: Config, s: State, s': State) {
    WellFormed(cfg, s) && exists w: nat :: w < |s.workers| && Enabled(cfg, s, w) && s' == Step(cfg, s, w)
  }

  ghost predicate IsRun(cfg: Config, run: seq<State>) {
    && run != []
    && run[0] == Init(cfg)
    && forall i: nat :: i + 1 < |run| ==> Next(cfg, run[i], run[i + 1])
  }

  /** The pool has nothing left to start and every worker is idle. */
  predicate Final(cfg: Config, s: State) {
    s.started == cfg.TaskCount() && forall i :: 0 <= i < |s.workers| ==> s.workers[i] == Idle
  }

  // ---------------------------------------------------------------- the sequential reference

  /** cur_srpm after a sequential run has passed the first `n` tasks. */
  function LastSrpm(outcomes: seq<Outcome>, n: nat): Option<string>
    requires n <= |outcomes|
  {
    if n == 0 then None
    else if outcomes[n - 1].Loaded? then outcomes[n - 1].srpm
    else LastSrpm(outcomes, n - 1)
  }

  predicate StartsChunk(outcomes: seq<Outcome>, id: nat)
    requires id < |outcomes| && outcomes[id].Loaded?
  {
    LastSrpm(outcomes, id) != outcomes[id].srpm
  }

  /** What a single thread going through the first `n` tasks in id order writes to any stream. */
  function Sequential(outcomes: seq<Outcome>, n: nat): seq<Entry>
    requires n <= |outcomes|
  {
    if n == 0 then []
    else if outcomes[n - 1].Loaded? then
      Sequential(outcomes, n - 1) + [Entry(n - 1, StartsChunk(outcomes, n - 1))]
    else Sequential(outcomes, n - 1)
  }
}
