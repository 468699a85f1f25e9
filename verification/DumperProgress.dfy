/** Deadlock freedom and termination of the dumper protocol. */
module DumperProgress {
  import opened Basics
  import opened Dumper
  import opened DumperSafety

  ghost predicate CanMove(cfg: Config, s: State) {
    WellFormed(cfg, s) && exists w: nat :: w < |s.workers| && Enabled(cfg, s, w)
  }

  lemma CanMoveIsNext(cfg: Config, s: State)
    ensures CanMove(cfg, s) <==> exists s' {:trigger Next(cfg, s, s')} :: Next(cfg, s, s')
  {
    if CanMove(cfg, s) {
      var w: nat :| w < |s.workers| && Enabled(cfg, s, w);
      assert Next(cfg, s, Step(cfg, s, w));
    }
  }

  ghost predicate IsStuck(cfg: Config, s: State) {
    forall s' {:trigger Next(cfg, s, s')} :: !Next(cfg, s, s')
  }

  /** A run that cannot go on. */
  ghost predicate IsMaximalRun(cfg: Config, run: seq<State>) {
    IsRun(cfg, run) && IsStuck(cfg, run[|run| - 1])
  }

  /** The holder of the task that is next for the last stream is never blocked. */
  lemma OldestCanMove(cfg: Config, s: State, i: nat)
    requires Inv(cfg, s) && i < |s.workers|
    requires Pending(cfg, s.workers[i]) == Some(s.shared.turns[cfg.Streams() - 1])
    ensures Enabled(cfg, s, i)
  {
    assert WorkerInv(cfg, s, s.workers[i]);
  }

  /** With at least one worker, a state that is not final always has a step, even with a full buffer. */
  lemma DeadlockFree(cfg: Config, s: State)
    requires Inv(cfg, s) && cfg.workers > 0
    ensures Final(cfg, s) || CanMove(cfg, s)
  {
    var oldest := s.shared.turns[cfg.Streams() - 1];
    if oldest < s.started {
      if Held(cfg, s, oldest) {
        var i: nat :| i < |s.workers| && Pending(cfg, s.workers[i]) == Some(oldest);
        OldestCanMove(cfg, s, i);
      } else {
        BufferedCanMove(cfg, s);
      }
    } else {
      NothingHeldCanMove(cfg, s);
    }
  }

  /** The oldest task is buffered: all streams stand at it, and somebody responsible for it is not blocked. */
  lemma BufferedCanMove(cfg: Config, s: State)
    requires Inv(cfg, s) && s.shared.turns[cfg.Streams() - 1] < s.started
    requires !Held(cfg, s, s.shared.turns[cfg.Streams() - 1])
    ensures CanMove(cfg, s)
  {
    assert s.shared.turns[cfg.Streams() - 1] in s.shared.buffer;
    assert s.shared.turns[0] == s.shared.turns[cfg.Streams() - 1];
    var i: nat :| i < |s.workers| && Responsible(cfg, s.workers[i]);
    assert WorkerInv(cfg, s, s.workers[i]);
    assert Enabled(cfg, s, i);
  }

  /** All started tasks have left the last stream. */
  lemma NothingHeldCanMove(cfg: Config, s: State)
    requires Inv(cfg, s) && cfg.workers > 0 && s.shared.turns[cfg.Streams() - 1] >= s.started
    ensures Final(cfg, s) || CanMove(cfg, s)
  {
    if i :| 0 <= i < |s.workers| && s.workers[i] != Idle {
      assert WorkerInv(cfg, s, s.workers[i]);
      assert Enabled(cfg, s, i);
    } else if s.started < cfg.TaskCount() {
      assert Enabled(cfg, s, 0);
    }
  }

  // ---------------------------------------------------------------- termination

  /** At least the number of steps the worker can still take before it is idle. */
  function Weight(w: Worker): nat {
    match w
    case Idle => 0
    case Draining => 1
    case Skipping(_, stage) => if stage < 4 then 5 - stage else 0
    case Cleanup(_) => 6
    case Writing(_, stage, _, _) => if stage < 4 then 11 - stage else 0
    case Buffering(_) => 12
    case Loading(_) => 13
  }

  function WorkersWeight(ws: seq<Worker>): nat {
    if ws == [] then 0 else Weight(ws[0]) + WorkersWeight(ws[1..])
  }

  /** Bounds the steps still to come from unstarted, running and buffered tasks. */
  function Measure(cfg: Config, s: State): nat
    requires s.started <= cfg.TaskCount()
  {
    14 * (cfg.TaskCount() - s.started) + WorkersWeight(s.workers) + 11 * |s.shared.buffer|
  }

  lemma {:induction false} WeightOfUpdate(ws: seq<Worker>, w: nat, x: Worker)
    requires w < |ws|
    ensures WorkersWeight(ws[w := x]) + Weight(ws[w]) == WorkersWeight(ws) + Weight(x)
  {
    if w == 0 {
      assert ws[w := x][1..] == ws[1..];
    } else {
      WeightOfUpdate(ws[1..], w - 1, x);
      assert ws[w := x][1..] == ws[1..][w - 1 := x];
    }
  }

  lemma StepWeight(cfg: Config, s: State, w: nat)
    requires Inv(cfg, s) && w < |s.workers| && Enabled(cfg, s, w)
    ensures var s' := Step(cfg, s, w);
      && |s'.workers| == |s.workers|
      && s'.workers == s.workers[w := s'.workers[w]]
      && Weight(s'.workers[w]) + 11 * |s'.shared.buffer|
         < Weight(s.workers[w]) + 11 * |s.shared.buffer| + 14 * (s'.started - s.started)
  {
    assert WorkerInv(cfg, s, s.workers[w]);
    StepShape(cfg, s, w);
    if s.workers[w].Buffering? {
      InsertSortedKeeps(s.shared.buffer, s.workers[w].id);
    }
    StepLightens(cfg, s, w);
  }

  lemma StepLightens(cfg: Config, s: State, w: nat)
    requires WellFormed(cfg, s) && w < |s.workers| && Enabled(cfg, s, w) && |Step(cfg, s, w).workers| == |s.workers|
    requires s.workers[w].Buffering? ==>
      |InsertSorted(s.shared.buffer, s.workers[w].id)| == |s.shared.buffer| + 1
    ensures var s' := Step(cfg, s, w);
      Weight(s'.workers[w]) + 11 * |s'.shared.buffer|
      < Weight(s.workers[w]) + 11 * |s.shared.buffer| + 14 * (s'.started - s.started)
  {
    assert WorkerShape(cfg, s.workers[w]);
  }

  lemma StepDecreases(cfg: Config, s: State, w: nat)
    requires Inv(cfg, s) && w < |s.workers| && Enabled(cfg, s, w)
    ensures Step(cfg, s, w).started <= cfg.TaskCount()
    ensures Measure(cfg, Step(cfg, s, w)) < Measure(cfg, s)
  {
    var s' := Step(cfg, s, w);
    StepBounds(cfg, s, w);
    StepWeight(cfg, s, w);
    WeightOfUpdate(s.workers, w, s'.workers[w]);
  }

  lemma {:induction false} IdleWeighsNothing(ws: seq<Worker>)
    requires forall i :: 0 <= i < |ws| ==> ws[i] == Idle
    ensures WorkersWeight(ws) == 0
  {
    if ws != [] {
      IdleWeighsNothing(ws[1..]);
    }
  }

  lemma NextDecreases(cfg: Config, s: State, s': State)
    requires Inv(cfg, s) && Next(cfg, s, s')
    ensures s'.started <= cfg.TaskCount() && Measure(cfg, s') < Measure(cfg, s)
  {
    var w: nat :| w < |s.workers| && Enabled(cfg, s, w) && s' == Step(cfg, s, w);
    StepDecreases(cfg, s, w);
  }

  lemma {:induction false} RunMeasure(cfg: Config, run: seq<State>, n: nat)
    requires IsRun(cfg, run) && n < |run|
    ensures run[n].started <= cfg.TaskCount()
    ensures Measure(cfg, run[n]) + n <= 14 * cfg.TaskCount()
  {
    if n == 0 {
      IdleWeighsNothing(run[0].workers);
    } else {
      RunMeasure(cfg, run, n - 1);
      EveryStateInv(cfg, run, n - 1);
      assert Next(cfg, run[n - 1], run[n - 1 + 1]);
      NextDecreases(cfg, run[n - 1], run[n]);
    }
  }

  /** No run is longer than a fixed number of steps per task. */
  lemma RunsAreBounded(cfg: Config, run: seq<State>)
    requires IsRun(cfg, run)
    ensures |run| <= 1 + 14 * cfg.TaskCount()
  {
    RunMeasure(cfg, run, |run| - 1);
  }

  /** A run that cannot be extended has finished everything: every stream holds the complete sequential
      log, the counters equal the task count, and nothing is buffered. Together with `RunsAreBounded`:
      every schedule completes, with the output of a sequential run. */
  lemma EveryMaximalRunCompletes(cfg: Config, run: seq<State>)
    requires IsMaximalRun(cfg, run) && cfg.workers > 0
    ensures var s := run[|run| - 1];
      && Final(cfg, s)
      && |s.shared.turns| == |s.shared.logs| == cfg.Streams()
      && s.shared.buffer == []
      && (forall turn :: turn in s.shared.turns ==> turn == cfg.TaskCount())
      && (forall log :: log in s.shared.logs ==> log == Sequential(cfg.outcomes, cfg.TaskCount()))
      && s.shared.packageCount == |Sequential(cfg.outcomes, cfg.TaskCount())|
  {
    var n := |run| - 1;
    var s := run[n];
    EveryStateInv(cfg, run, n);
    CanMoveIsNext(cfg, s);
    DeadlockFree(cfg, s);
    IdleMeansEmpty(cfg, run, n);
    forall k | 0 <= k < cfg.Streams()
      ensures s.shared.logs[k] == Sequential(cfg.outcomes, cfg.TaskCount())
    {
      LogsAreSequential(cfg, run, n, k);
      assert s.shared.turns[k] in s.shared.turns;
    }
  }
}
