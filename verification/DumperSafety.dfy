/** The invariant of the dumper protocol and the safety results that follow from it. */
module DumperSafety {
  import opened Basics
  import opened Dumper

  /** The task a worker still has to push through the streams. After its own successful write a worker
      in `Cleanup` owes nothing more; after an error it still owes every turn. */
  function Pending(cfg: Config, w: Worker): Option<nat>
    requires WorkerShape(cfg, w)
  {
    match w
    case Idle | Draining => None
    case Loading(id) => Some(id)
    case Buffering(id) => Some(id)
    case Writing(id, _, _, _) => Some(id)
    case Skipping(id, _) => Some(id)
    case Cleanup(id) => if cfg.outcomes[id].Failed? then Some(id) else None
  }

  /** How many streams the pending task has passed. */
  function Passed(w: Worker): nat {
    match w
    case Writing(_, stage, _, _) => stage
    case Skipping(_, stage) => stage
    case _ => 0
  }

  /** A worker that has advanced `id_pri` (or has just popped nothing yet) and will still make a drain
      check without first waiting for the primary turn. */
  predicate Responsible(cfg: Config, w: Worker)
    requires WorkerShape(cfg, w)
  {
    match w
    case Writing(_, stage, _, _) => stage > 0
    case Skipping(_, stage) => stage > 0
    case Cleanup(id) => cfg.outcomes[id].Loaded?
    case Draining => true
    case _ => false
  }

  predicate WorkerInv(cfg: Config, s: State, w: Worker)
    requires WellFormed(cfg, s) && WorkerShape(cfg, w)
  {
    && (Pending(cfg, w).Some? ==>
         var id := Pending(cfg, w).value;
         && id < s.started
         && (forall j: nat :: j < Passed(w) ==> id < s.shared.turns[j])
         && (forall j: nat :: Passed(w) <= j < cfg.Streams() ==> s.shared.turns[j] <= id))
    && (w.Writing? && w.stage > 0 ==> w.newPkg == StartsChunk(cfg.outcomes, w.id))
    && (w.Cleanup? && cfg.outcomes[w.id].Loaded? ==> w.id < s.shared.turns[0])
  }

  predicate WorkersInv(cfg: Config, s: State)
    requires WellFormed(cfg, s)
  {
    && (forall i :: 0 <= i < |s.workers| ==> WorkerInv(cfg, s, s.workers[i]))
    && (forall i, j :: 0 <= i < j < |s.workers| && Pending(cfg, s.workers[i]).Some? ==>
         Pending(cfg, s.workers[i]) != Pending(cfg, s.workers[j]))
  }

  predicate Ascending(b: seq<nat>) {
    forall i, j :: 0 <= i < j < |b| ==> b[i] < b[j]
  }

  predicate BufferInv(cfg: Config, s: State)
    requires WellFormed(cfg, s)
  {
    && Ascending(s.shared.buffer)
    && |s.shared.buffer| <= MAX_TASK_BUFFER_LEN
    && (forall b :: b in s.shared.buffer ==> s.shared.turns[0] <= b < s.started)
    && (forall i :: 0 <= i < |s.workers| && Pending(cfg, s.workers[i]).Some? ==>
         Pending(cfg, s.workers[i]).value !in s.shared.buffer)
  }

  predicate TurnsInv(cfg: Config, s: State)
    requires WellFormed(cfg, s)
  {
    && s.shared.turns[0] <= s.started <= cfg.TaskCount()
    && forall j, k :: 0 <= j < k < cfg.Streams() ==> s.shared.turns[k] <= s.shared.turns[j]
  }

  ghost predicate Held(cfg: Config, s: State, id: nat)
    requires WellFormed(cfg, s)
  {
    exists i :: 0 <= i < |s.workers| && Pending(cfg, s.workers[i]) == Some(id)
  }

  /** Every started task that has not left the last stream is in the buffer or with a worker. */
  ghost predicate CoverageInv(cfg: Config, s: State)
    requires WellFormed(cfg, s)
  {
    forall id: nat :: s.shared.turns[cfg.Streams() - 1] <= id < s.started ==>
      id in s.shared.buffer || Held(cfg, s, id)
  }

  ghost predicate SomeResponsible(cfg: Config, s: State)
    requires WellFormed(cfg, s)
  {
    exists i :: 0 <= i < |s.workers| && Responsible(cfg, s.workers[i])
  }

  /** No buffered task whose turn has come is stranded. */
  ghost predicate NotStranded(cfg: Config, s: State)
    requires WellFormed(cfg, s)
  {
    s.shared.turns[0] in s.shared.buffer ==> SomeResponsible(cfg, s)
  }

  predicate LogsInv(cfg: Config, s: State)
    requires WellFormed(cfg, s)
  {
    && (forall k :: 0 <= k < cfg.Streams() ==>
         && s.shared.turns[k] <= cfg.TaskCount()
         && s.shared.logs[k] == Sequential(cfg.outcomes, s.shared.turns[k]))
    && s.shared.packageCount == |s.shared.logs[0]|
    && s.shared.curSrpm == LastSrpm(cfg.outcomes, s.shared.turns[0])
  }

  ghost predicate Inv(cfg: Config, s: State) {
    && WellFormed(cfg, s)
    && WorkersInv(cfg, s)
    && BufferInv(cfg, s)
    && TurnsInv(cfg, s)
    && CoverageInv(cfg, s)
    && NotStranded(cfg, s)
    && LogsInv(cfg, s)
  }

  // ---------------------------------------------------------------- preservation, one part at a time

  lemma {:induction false} InsertSortedKeeps(b: seq<nat>, id: nat)
    requires Ascending(b) && id !in b
    ensures Ascending(InsertSorted(b, id))
    ensures |InsertSorted(b, id)| == |b| + 1
    ensures forall x :: x in InsertSorted(b, id) <==> x in b || x == id
  {
    if b != [] && id > b[0] {
      InsertSortedKeeps(b[1..], id);
      assert forall x :: x in b <==> x == b[0] || x in b[1..];
      var rest := InsertSorted(b[1..], id);
      forall i | 0 <= i < |rest|
        ensures b[0] < rest[i]
      {
        assert rest[i] in rest;
      }
    }
  }

  /** A number not above any member can only be the head. */
  lemma HeadIsLeast(b: seq<nat>, turn: nat)
    requires Ascending(b) && forall x :: x in b ==> turn <= x
    ensures turn in b <==> b != [] && b[0] == turn
    ensures b != [] ==> turn !in b[1..]
  {
    if b != [] {
      assert forall i :: 0 < i < |b| ==> b[0] < b[i];
      assert b[0] in b;
    }
  }

  /** What one step of worker `w` may do to the turns: nothing, or pass the turn of the stream its
      pending task waits for. */
  ghost predicate TurnsMove(cfg: Config, s: State, s': State, w: nat)
    requires WellFormed(cfg, s) && WellFormed(cfg, s') && w < |s.workers|
  {
    || s'.shared.turns == s.shared.turns
    || (&& Passed(s.workers[w]) < cfg.Streams()
        && Pending(cfg, s.workers[w]) == Some(s.shared.turns[Passed(s.workers[w])])
        && s'.shared.turns == PassTurn(s.shared, Passed(s.workers[w])).turns)
  }

  /** The shape every step has: one worker moves. */
  ghost predicate OneMoves(cfg: Config, s: State, s': State, w: nat) {
    && WellFormed(cfg, s)
    && WellFormed(cfg, s')
    && w < |s.workers|
    && s'.workers == s.workers[w := s'.workers[w]]
    && s.started <= s'.started
    && TurnsMove(cfg, s, s', w)
  }

  /** A worker's pending task is unchanged, freshly started, finished, or freshly popped. */
  ghost predicate PendingMoves(cfg: Config, s: State, s': State, w: nat)
    requires OneMoves(cfg, s, s', w)
  {
    var p := Pending(cfg, s.workers[w]);
    var p' := Pending(cfg, s'.workers[w]);
    || (p' == p && s'.started == s.started && s'.shared.buffer == s.shared.buffer)
    || (p' == None && s'.started == s.started && s'.shared.buffer == s.shared.buffer
        && p.Some? && p.value < s'.shared.turns[cfg.Streams() - 1])
    || (p == None && p' == Some(s.started) && s'.started == s.started + 1
        && s'.shared.buffer == s.shared.buffer)
    || (p == None && p'.Some? && s'.started == s.started
        && s.shared.buffer == [p'.value] + s'.shared.buffer)
    || (p.Some? && p' == None && s'.started == s.started && Passed(s.workers[w]) == 0
        && s'.shared.buffer == InsertSorted(s.shared.buffer, p.value))
  }

  lemma StepShape(cfg: Config, s: State, w: nat)
    requires WellFormed(cfg, s) && w < |s.workers| && Enabled(cfg, s, w)
    requires WorkerInv(cfg, s, s.workers[w])
    ensures var s' := Step(cfg, s, w);
      && |s'.workers| == |s.workers|
      && s'.workers == s.workers[w := s'.workers[w]]
      && WorkerShape(cfg, s'.workers[w])
      && |s'.shared.turns| == |s'.shared.logs| == cfg.Streams()
      && s.started <= s'.started
  {
    var s' := Step(cfg, s, w);
    assert WorkerShape(cfg, s.workers[w]);
    match s.workers[w]
    case Draining =>
      if s.shared.buffer != [] {
        assert s.shared.buffer[0] in s.shared.buffer;
      }
      assert WorkerShape(cfg, s'.workers[w]);
    case _ =>
      assert WorkerShape(cfg, s'.workers[w]);
  }

  lemma StepBufferShape(cfg: Config, s: State, w: nat)
    requires WellFormed(cfg, s) && Ascending(s.shared.buffer) && w < |s.workers| && Enabled(cfg, s, w)
    requires s.workers[w].Buffering? ==> s.workers[w].id !in s.shared.buffer
    ensures forall b :: b in Step(cfg, s, w).shared.buffer ==>
      b in s.shared.buffer || (s.workers[w].Buffering? && b == s.workers[w].id)
  {
    if s.workers[w].Buffering? {
      InsertSortedKeeps(s.shared.buffer, s.workers[w].id);
    } else if s.workers[w].Draining? {
      assert forall b :: s.shared.buffer != [] && b in s.shared.buffer[1..] ==> b in s.shared.buffer;
    } else {
      assert Step(cfg, s, w).shared.buffer == s.shared.buffer;
    }
  }

  lemma StepWellFormed(cfg: Config, s: State, w: nat)
    requires Inv(cfg, s) && w < |s.workers| && Enabled(cfg, s, w)
    ensures WellFormed(cfg, Step(cfg, s, w))
  {
    var s' := Step(cfg, s, w);
    assert WorkerInv(cfg, s, s.workers[w]);
    StepShape(cfg, s, w);
    StepBufferShape(cfg, s, w);
    forall i | 0 <= i < |s'.workers|
      ensures WorkerShape(cfg, s'.workers[i])
    {
      assert i != w ==> s'.workers[i] == s.workers[i];
    }
  }

  lemma StepTurnsMove(cfg: Config, s: State, w: nat)
    requires Inv(cfg, s) && w < |s.workers| && Enabled(cfg, s, w)
    ensures WellFormed(cfg, Step(cfg, s, w)) && TurnsMove(cfg, s, Step(cfg, s, w), w)
  {
    StepWellFormed(cfg, s, w);
    var s' := Step(cfg, s, w);
    var worker := s.workers[w];
    if worker.Writing? || worker.Skipping? {
      assert s'.shared.turns == PassTurn(s.shared, worker.stage).turns;
    } else {
      assert s'.shared.turns == s.shared.turns;
    }
  }

  lemma StepMoves(cfg: Config, s: State, w: nat)
    requires Inv(cfg, s) && w < |s.workers| && Enabled(cfg, s, w)
    ensures OneMoves(cfg, s, Step(cfg, s, w), w)
  {
    assert WorkerInv(cfg, s, s.workers[w]);
    StepShape(cfg, s, w);
    StepTurnsMove(cfg, s, w);
  }

  lemma StepPendingMoves(cfg: Config, s: State, w: nat)
    requires Inv(cfg, s) && w < |s.workers| && Enabled(cfg, s, w)
    ensures var s' := Step(cfg, s, w); OneMoves(cfg, s, s', w) && PendingMoves(cfg, s, s', w)
  {
    StepMoves(cfg, s, w);
    assert WorkerInv(cfg, s, s.workers[w]);
    if s.workers[w].Writing? || s.workers[w].Skipping? {
      TurnMovesPending(cfg, s, Step(cfg, s, w), w);
    } else {
      QuietMovesPending(cfg, s, Step(cfg, s, w), w);
    }
  }

  lemma TurnMovesPending(cfg: Config, s: State, s': State, w: nat)
    requires OneMoves(cfg, s, s', w) && Enabled(cfg, s, w) && s' == Step(cfg, s, w)
    requires s.workers[w].Writing? || s.workers[w].Skipping?
    ensures PendingMoves(cfg, s, s', w)
  {
    var worker := s.workers[w];
    assert WorkerShape(cfg, worker);
    assert s'.shared.buffer == s.shared.buffer && s'.started == s.started;
    assert s.shared.turns[worker.stage] == worker.id;
  }

  lemma QuietMovesPending(cfg: Config, s: State, s': State, w: nat)
    requires OneMoves(cfg, s, s', w) && Enabled(cfg, s, w) && s' == Step(cfg, s, w)
    requires WorkerInv(cfg, s, s.workers[w]) && !s.workers[w].Writing? && !s.workers[w].Skipping?
    ensures PendingMoves(cfg, s, s', w)
  {
  }

  lemma StepWorker(cfg: Config, s: State, w: nat)
    requires Inv(cfg, s) && w < |s.workers| && Enabled(cfg, s, w)
    ensures var s' := Step(cfg, s, w); WellFormed(cfg, s') && WorkerInv(cfg, s', s'.workers[w])
  {
    StepWellFormed(cfg, s, w);
    assert WorkerInv(cfg, s, s.workers[w]);
    var s' := Step(cfg, s, w);
    match s.workers[w]
    case Writing(id, stage, _, _) =>
      AfterTurn(cfg, s, s', w, stage);
    case Skipping(id, stage) =>
      AfterTurn(cfg, s, s', w, stage);
    case Draining =>
      AfterDrain(cfg, s, s', w);
    case _ =>
      AfterOwn(cfg, s, s', w);
  }

  /** A task that is taken out of the buffer has still all streams before it. */
  lemma AfterDrain(cfg: Config, s: State, s': State, w: nat)
    requires WellFormed(cfg, s) && BufferInv(cfg, s) && TurnsInv(cfg, s) && w < |s.workers|
    requires s.workers[w].Draining? && s' == Step(cfg, s, w) && WellFormed(cfg, s')
    ensures WorkerInv(cfg, s', s'.workers[w])
  {
    assert s'.shared.turns == s.shared.turns;
    if s.shared.buffer != [] {
      HeadIsMember(s.shared.buffer);
    }
  }

  /** A worker that passes no turn and takes nothing from the buffer. */
  lemma AfterOwn(cfg: Config, s: State, s': State, w: nat)
    requires WellFormed(cfg, s) && TurnsInv(cfg, s) && w < |s.workers| && Enabled(cfg, s, w)
    requires WorkerInv(cfg, s, s.workers[w])
    requires !s.workers[w].Writing? && !s.workers[w].Skipping? && !s.workers[w].Draining?
    requires s' == Step(cfg, s, w) && WellFormed(cfg, s')
    ensures WorkerInv(cfg, s', s'.workers[w])
  {
    assert WorkerShape(cfg, s.workers[w]);
    assert s'.shared.turns == s.shared.turns;
  }

  /** After its turn on `stage` the worker's task has passed that stream and waits for the next. */
  lemma AfterTurn(cfg: Config, s: State, s': State, w: nat, stage: nat)
    requires WellFormed(cfg, s) && LogsInv(cfg, s) && w < |s.workers| && Enabled(cfg, s, w)
    requires WorkerInv(cfg, s, s.workers[w])
    requires (s.workers[w].Writing? || s.workers[w].Skipping?) && s.workers[w].stage == stage
    requires s' == Step(cfg, s, w) && WellFormed(cfg, s')
    ensures WorkerInv(cfg, s', s'.workers[w])
  {
    assert WorkerShape(cfg, s.workers[w]);
    assert s'.shared.turns == s.shared.turns[stage := s.workers[w].id + 1];
    var worker, worker' := s.workers[w], s'.workers[w];
    if worker'.Writing? {
      assert worker.Writing? && worker'.id == worker.id && worker'.stage == stage + 1;
      assert stage == 0 ==> s.shared.curSrpm == LastSrpm(cfg.outcomes, worker.id);
      assert worker'.newPkg == StartsChunk(cfg.outcomes, worker.id);
    }
  }

  lemma OthersKeep(cfg: Config, s: State, s': State, w: nat)
    requires Inv(cfg, s) && OneMoves(cfg, s, s', w) && WorkerInv(cfg, s', s'.workers[w])
    ensures forall i :: 0 <= i < |s'.workers| ==> WorkerInv(cfg, s', s'.workers[i])
  {
    forall i | 0 <= i < |s'.workers| && i != w
      ensures WorkerInv(cfg, s', s'.workers[i])
    {
      assert WorkerInv(cfg, s, s.workers[w]) && WorkerInv(cfg, s, s.workers[i]);
      assert Pending(cfg, s.workers[i]).Some? ==> Pending(cfg, s.workers[i]) != Pending(cfg, s.workers[w]);
      OtherKeeps(cfg, s, s', s.workers[w], s.workers[i]);
    }
  }

  /** A worker that does not move keeps its part of the invariant, whatever turn the other one passes. */
  lemma OtherKeeps(cfg: Config, s: State, s': State, mover: Worker, other: Worker)
    requires WellFormed(cfg, s) && WellFormed(cfg, s') && WorkerShape(cfg, mover) && WorkerShape(cfg, other)
    requires WorkerInv(cfg, s, mover) && WorkerInv(cfg, s, other)
    requires Pending(cfg, other).Some? ==> Pending(cfg, other) != Pending(cfg, mover)
    requires s.started <= s'.started
    requires || s'.shared.turns == s.shared.turns
             || (&& Passed(mover) < cfg.Streams()
                 && Pending(cfg, mover) == Some(s.shared.turns[Passed(mover)])
                 && s'.shared.turns == PassTurn(s.shared, Passed(mover)).turns)
    ensures WorkerInv(cfg, s', other)
  {
    if s'.shared.turns != s.shared.turns {
      var stage := Passed(mover);
      assert s'.shared.turns[stage] == s.shared.turns[stage] + 1;
      assert forall j :: 0 <= j < cfg.Streams() && j != stage ==> s'.shared.turns[j] == s.shared.turns[j];
    }
  }

  lemma StepTurns(cfg: Config, s: State, s': State, w: nat)
    requires Inv(cfg, s) && OneMoves(cfg, s, s', w)
    requires PendingMoves(cfg, s, s', w) && s'.started <= cfg.TaskCount()
    ensures TurnsInv(cfg, s')
  {
    assert WorkerInv(cfg, s, s.workers[w]);
  }

  lemma StepDistinct(cfg: Config, s: State, s': State, w: nat)
    requires Inv(cfg, s) && OneMoves(cfg, s, s', w) && PendingMoves(cfg, s, s', w)
    ensures forall i, j :: 0 <= i < j < |s'.workers| && Pending(cfg, s'.workers[i]).Some? ==>
      Pending(cfg, s'.workers[i]) != Pending(cfg, s'.workers[j])
  {
    forall i | 0 <= i < |s'.workers| && i != w && Pending(cfg, s'.workers[w]).Some?
      ensures Pending(cfg, s'.workers[i]) != Pending(cfg, s'.workers[w])
    {
      assert WorkerInv(cfg, s, s.workers[i]);
    }
  }

  lemma StepBuffer(cfg: Config, s: State, s': State, w: nat)
    requires Inv(cfg, s) && OneMoves(cfg, s, s', w) && PendingMoves(cfg, s, s', w)
    requires |s'.shared.buffer| <= MAX_TASK_BUFFER_LEN
    requires s'.shared.buffer != s.shared.buffer ==> s'.shared.turns == s.shared.turns
    ensures BufferInv(cfg, s')
  {
    assert WorkerInv(cfg, s, s.workers[w]);
    var p := Pending(cfg, s.workers[w]);
    if p.Some? && s'.shared.buffer == InsertSorted(s.shared.buffer, p.value) {
      InsertSortedKeeps(s.shared.buffer, p.value);
    }
    assert p.Some? ==> p.value !in s.shared.buffer;
    forall b | b in s'.shared.buffer
      ensures s'.shared.turns[0] <= b < s'.started
    {
      assert b in s.shared.buffer || p == Some(b);
    }
    forall i | 0 <= i < |s'.workers| && Pending(cfg, s'.workers[i]).Some?
      ensures Pending(cfg, s'.workers[i]).value !in s'.shared.buffer
    {
      if i != w {
        assert Pending(cfg, s.workers[i]) != p;
      }
    }
  }

  lemma StepCoverage(cfg: Config, s: State, s': State, w: nat)
    requires Inv(cfg, s) && OneMoves(cfg, s, s', w) && PendingMoves(cfg, s, s', w)
    ensures CoverageInv(cfg, s')
  {
    var last := cfg.Streams() - 1;
    var p := Pending(cfg, s.workers[w]);
    if p.Some? && p.value !in s.shared.buffer {
      InsertSortedKeeps(s.shared.buffer, p.value);
    }
    forall id: nat | s'.shared.turns[last] <= id < s'.started
      ensures id in s'.shared.buffer || Held(cfg, s', id)
    {
      if id == s.started || Pending(cfg, s'.workers[w]) == Some(id) {
        assert Pending(cfg, s'.workers[w]) == Some(id);
      } else if id in s.shared.buffer {
      } else {
        var i :| 0 <= i < |s.workers| && Pending(cfg, s.workers[i]) == Some(id);
        if i != w {
          assert Pending(cfg, s'.workers[i]) == Some(id);
        }
      }
    }
  }

  /** How a step may touch what keeps a buffered task from being stranded. */
  ghost predicate ResponsibilityMoves(cfg: Config, s: State, s': State, w: nat)
    requires OneMoves(cfg, s, s', w)
  {
    || Responsible(cfg, s'.workers[w])
    || s'.shared.turns[0] !in s'.shared.buffer
    || (!Responsible(cfg, s.workers[w])
        && s'.shared.turns[0] == s.shared.turns[0]
        && s.shared.turns[0] in s.shared.buffer)
  }

  lemma StepResponsibility(cfg: Config, s: State, w: nat)
    requires Inv(cfg, s) && w < |s.workers| && Enabled(cfg, s, w)
    ensures var s' := Step(cfg, s, w); OneMoves(cfg, s, s', w) && ResponsibilityMoves(cfg, s, s', w)
  {
    StepMoves(cfg, s, w);
    assert WorkerInv(cfg, s, s.workers[w]);
    if s.workers[w].Buffering? {
      InsertSortedKeeps(s.shared.buffer, s.workers[w].id);
    } else if s.workers[w].Draining? {
      HeadIsLeast(s.shared.buffer, s.shared.turns[0]);
    }
  }

  lemma StepNotStranded(cfg: Config, s: State, s': State, w: nat)
    requires Inv(cfg, s) && OneMoves(cfg, s, s', w) && ResponsibilityMoves(cfg, s, s', w)
    ensures NotStranded(cfg, s')
  {
    if s'.shared.turns[0] in s'.shared.buffer && !Responsible(cfg, s'.workers[w]) {
      var i :| 0 <= i < |s.workers| && Responsible(cfg, s.workers[i]);
      assert Responsible(cfg, s'.workers[i]);
    }
  }

  lemma StepBounds(cfg: Config, s: State, w: nat)
    requires Inv(cfg, s) && w < |s.workers| && Enabled(cfg, s, w)
    ensures var s' := Step(cfg, s, w);
      && s'.started <= cfg.TaskCount()
      && |s'.shared.buffer| <= MAX_TASK_BUFFER_LEN
      && (s'.shared.buffer != s.shared.buffer ==> s'.shared.turns == s.shared.turns)
  {
    if s.workers[w].Buffering? {
      InsertSortedKeeps(s.shared.buffer, s.workers[w].id);
    }
  }

  lemma StepLogs(cfg: Config, s: State, w: nat)
    requires Inv(cfg, s) && w < |s.workers| && Enabled(cfg, s, w)
    ensures var s' := Step(cfg, s, w); WellFormed(cfg, s') && LogsInv(cfg, s')
  {
    StepWellFormed(cfg, s, w);
    assert WorkerInv(cfg, s, s.workers[w]);
    var s' := Step(cfg, s, w);
    match s.workers[w]
    case Writing(id, stage, _, _) =>
      WriteKeepsLogs(cfg, s, s', w, id, stage);
    case Skipping(id, stage) =>
      SkipKeepsLogs(cfg, s, s', w, id, stage);
    case _ =>
      assert s'.shared == s.shared.(buffer := s'.shared.buffer);
  }

  lemma WriteKeepsLogs(cfg: Config, s: State, s': State, w: nat, id: nat, stage: nat)
    requires WellFormed(cfg, s) && LogsInv(cfg, s) && w < |s.workers| && Enabled(cfg, s, w)
    requires s.workers[w].Writing? && s.workers[w].id == id && s.workers[w].stage == stage
    requires WorkerInv(cfg, s, s.workers[w]) && s' == Step(cfg, s, w) && WellFormed(cfg, s')
    ensures LogsInv(cfg, s')
  {
    assert WorkerShape(cfg, s.workers[w]);
    assert s.shared.turns[stage] == id;
    var entry := Entry(id, StartsChunk(cfg.outcomes, id));
    assert s'.shared.turns == s.shared.turns[stage := id + 1];
    assert s'.shared.logs == s.shared.logs[stage := s.shared.logs[stage] + [entry]];
    assert Sequential(cfg.outcomes, id + 1) == Sequential(cfg.outcomes, id) + [entry];
  }

  lemma SkipKeepsLogs(cfg: Config, s: State, s': State, w: nat, id: nat, stage: nat)
    requires WellFormed(cfg, s) && LogsInv(cfg, s) && w < |s.workers| && Enabled(cfg, s, w)
    requires s.workers[w].Skipping? && s.workers[w].id == id && s.workers[w].stage == stage
    requires s' == Step(cfg, s, w) && WellFormed(cfg, s')
    ensures LogsInv(cfg, s')
  {
    assert WorkerShape(cfg, s.workers[w]);
    assert s'.shared == PassTurn(s.shared, stage);
    assert Sequential(cfg.outcomes, id + 1) == Sequential(cfg.outcomes, id);
  }

  lemma StepKeepsInv(cfg: Config, s: State, s': State)
    requires Inv(cfg, s) && Next(cfg, s, s')
    ensures Inv(cfg, s')
  {
    var w: nat :| w < |s.workers| && Enabled(cfg, s, w) && s' == Step(cfg, s, w);
    StepPendingMoves(cfg, s, w);
    StepWorker(cfg, s, w);
    StepBounds(cfg, s, w);
    StepResponsibility(cfg, s, w);
    StepLogs(cfg, s, w);
    OthersKeep(cfg, s, s', w);
    StepDistinct(cfg, s, s', w);
    StepTurns(cfg, s, s', w);
    StepBuffer(cfg, s, s', w);
    StepCoverage(cfg, s, s', w);
    StepNotStranded(cfg, s, s', w);
  }

  lemma {:induction false} EveryStateInv(cfg: Config, run: seq<State>, n: nat)
    requires IsRun(cfg, run) && n < |run|
    ensures Inv(cfg, run[n])
  {
    if n > 0 {
      EveryStateInv(cfg, run, n - 1);
      assert Next(cfg, run[n - 1], run[n - 1 + 1]);
      StepKeepsInv(cfg, run[n - 1], run[n]);
    }
  }

  // ---------------------------------------------------------------- what the invariant means

  /** The tasks that the workers hold. */
  ghost function HeldIds(cfg: Config, ws: seq<Worker>): set<nat>
    requires forall i :: 0 <= i < |ws| ==> WorkerShape(cfg, ws[i])
  {
    if ws == [] then {}
    else
      var p := Pending(cfg, ws[|ws| - 1]);
      HeldIds(cfg, ws[..|ws| - 1]) + if p.Some? then {p.value} else {}
  }

  lemma {:induction false} HeldAtMostOnePerWorker(cfg: Config, ws: seq<Worker>)
    requires forall i :: 0 <= i < |ws| ==> WorkerShape(cfg, ws[i])
    ensures |HeldIds(cfg, ws)| <= |ws|
  {
    if ws != [] {
      HeldAtMostOnePerWorker(cfg, ws[..|ws| - 1]);
    }
  }

  lemma {:induction false} HeldIdsAreHeld(cfg: Config, ws: seq<Worker>, i: nat)
    requires forall j :: 0 <= j < |ws| ==> WorkerShape(cfg, ws[j])
    requires i < |ws| && Pending(cfg, ws[i]).Some?
    ensures Pending(cfg, ws[i]).value in HeldIds(cfg, ws)
  {
    if i < |ws| - 1 {
      HeldIdsAreHeld(cfg, ws[..|ws| - 1], i);
    }
  }

  /** Pipeline: the turns never overtake each other, the primary stream is ahead of the last one by at
      most one task per worker, and the buffer is sorted, bounded and holds only tasks still to come. */
  lemma PipelineBounds(cfg: Config, run: seq<State>, n: nat)
    requires IsRun(cfg, run) && n < |run|
    ensures var sh := run[n].shared;
      && |sh.turns| == cfg.Streams()
      && (forall j, k :: 0 <= j < k < cfg.Streams() ==> sh.turns[k] <= sh.turns[j])
      && sh.turns[0] - sh.turns[cfg.Streams() - 1] <= cfg.workers
      && Ascending(sh.buffer)
      && |sh.buffer| <= 20
      && (forall b :: b in sh.buffer ==> sh.turns[0] <= b)
  {
    EveryStateInv(cfg, run, n);
    var s := run[n];
    var lo, hi := s.shared.turns[cfg.Streams() - 1], s.shared.turns[0];
    HeldAtMostOnePerWorker(cfg, s.workers);
    forall id | id in Interval(lo, hi)
      ensures id in HeldIds(cfg, s.workers)
    {
      assert Held(cfg, s, id);
      var i: nat :| i < |s.workers| && Pending(cfg, s.workers[i]) == Some(id);
      HeldIdsAreHeld(cfg, s.workers, i);
    }
    SubsetSize(Interval(lo, hi), HeldIds(cfg, s.workers));
  }

  /** Every stream's log is, at any moment, what a sequential run would have written by that turn; so
      streams that stand at the same turn hold the same packages and the same chunk boundaries, and
      `package_count` is the number of packages in the primary stream. */
  lemma LogsAreSequential(cfg: Config, run: seq<State>, n: nat, k: nat)
    requires IsRun(cfg, run) && n < |run| && k < cfg.Streams()
    ensures WellFormed(cfg, run[n]) && run[n].shared.turns[k] <= cfg.TaskCount()
    ensures run[n].shared.logs[k] == Sequential(cfg.outcomes, run[n].shared.turns[k])
    ensures run[n].shared.packageCount == |run[n].shared.logs[0]|
  {
    EveryStateInv(cfg, run, n);
  }

  /** The sequential log lists exactly the loaded ids below `n`, ascending and each once. */
  lemma {:induction false} SequentialIsLoadedIds(outcomes: seq<Outcome>, n: nat)
    requires n <= |outcomes|
    ensures var log := Sequential(outcomes, n);
      && (forall i :: 0 <= i < |log| ==> log[i].id < n && outcomes[log[i].id].Loaded?)
      && (forall i, j :: 0 <= i < j < |log| ==> log[i].id < log[j].id)
      && (forall id: nat :: id < n && outcomes[id].Loaded? ==> exists i :: 0 <= i < |log| && log[i].id == id)
  {
    if n > 0 {
      SequentialIsLoadedIds(outcomes, n - 1);
      var before, log := Sequential(outcomes, n - 1), Sequential(outcomes, n);
      forall id: nat | id < n && outcomes[id].Loaded?
        ensures exists i :: 0 <= i < |log| && log[i].id == id
      {
        if id < n - 1 {
          var i :| 0 <= i < |before| && before[i].id == id;
          assert log[i].id == id;
        } else {
          assert log[|log| - 1].id == id;
        }
      }
    }
  }

  ghost function FailedIds(outcomes: seq<Outcome>, n: nat): set<nat>
    requires n <= |outcomes|
  {
    set id | 0 <= id < n && outcomes[id].Failed?
  }

  /** Every task is written or failed: the task count put into the headers in advance differs from
      `package_count` exactly when some package failed. */
  lemma {:induction false} SequentialLength(outcomes: seq<Outcome>, n: nat)
    requires n <= |outcomes|
    ensures |Sequential(outcomes, n)| + |FailedIds(outcomes, n)| == n
    ensures n != |Sequential(outcomes, n)| <==> exists id :: 0 <= id < n && outcomes[id].Failed?
  {
    if n == 0 {
      assert FailedIds(outcomes, n) == {};
    } else {
      SequentialLength(outcomes, n - 1);
      if outcomes[n - 1].Failed? {
        assert FailedIds(outcomes, n) == FailedIds(outcomes, n - 1) + {n - 1};
      } else {
        assert FailedIds(outcomes, n) == FailedIds(outcomes, n - 1);
      }
    }
  }

  /** A chunk is ended before a package iff its source rpm differs from that of the package written
      just before it; the first package is compared with NULL. */
  lemma {:induction false} ChunkBoundaries(outcomes: seq<Outcome>, n: nat, i: nat)
    requires n <= |outcomes| && i < |Sequential(outcomes, n)|
    ensures var log := Sequential(outcomes, n);
      && log[i].id < |outcomes| && outcomes[log[i].id].Loaded?
      && (i > 0 ==> log[i - 1].id < |outcomes| && outcomes[log[i - 1].id].Loaded?)
      && (log[i].endsChunk <==>
           outcomes[log[i].id].srpm != if i == 0 then None else outcomes[log[i - 1].id].srpm)
  {
    SequentialIsLoadedIds(outcomes, n);
    if outcomes[n - 1].Loaded? && i == |Sequential(outcomes, n)| - 1 {
      LastSrpmIsLastWritten(outcomes, n - 1);
    } else {
      ChunkBoundaries(outcomes, n - 1, i);
    }
  }

  lemma {:induction false} LastSrpmIsLastWritten(outcomes: seq<Outcome>, n: nat)
    requires n <= |outcomes|
    ensures var log := Sequential(outcomes, n);
      && (log == [] ==> LastSrpm(outcomes, n) == None)
      && (log != [] ==>
           var last := log[|log| - 1].id;
           last < n && outcomes[last].Loaded? && LastSrpm(outcomes, n) == outcomes[last].srpm)
  {
    if n > 0 {
      LastSrpmIsLastWritten(outcomes, n - 1);
    }
  }

  /** When a buffered task's turn has come, some worker has passed `id_pri` on and is still to look
      into the buffer again without having to wait for the primary turn. */
  lemma NeverStranded(cfg: Config, run: seq<State>, n: nat)
    requires IsRun(cfg, run) && n < |run|
    ensures WellFormed(cfg, run[n])
    ensures run[n].shared.turns[0] in run[n].shared.buffer ==>
      exists i :: 0 <= i < |run[n].workers| && Responsible(cfg, run[n].workers[i])
  {
    EveryStateInv(cfg, run, n);
  }

  /** Whenever all workers are idle, nothing is left behind: the buffer is empty and every counter
      stands at the number of tasks started so far. */
  lemma IdleMeansEmpty(cfg: Config, run: seq<State>, n: nat)
    requires IsRun(cfg, run) && n < |run|
    requires forall i :: 0 <= i < |run[n].workers| ==> run[n].workers[i] == Idle
    ensures run[n].shared.buffer == []
    ensures forall turn :: turn in run[n].shared.turns ==> turn == run[n].started
  {
    EveryStateInv(cfg, run, n);
    NobodyHolds(cfg, run[n]);
    var sh := run[n].shared;
    assert sh.turns[0] !in sh.buffer;
    assert sh.turns[cfg.Streams() - 1] == run[n].started;
    assert forall k :: 0 <= k < cfg.Streams() ==> sh.turns[cfg.Streams() - 1] <= sh.turns[k] <= sh.turns[0];
    if sh.buffer != [] {
      HeadIsMember(sh.buffer);
    }
  }

  lemma NobodyHolds(cfg: Config, s: State)
    requires Inv(cfg, s) && forall i :: 0 <= i < |s.workers| ==> s.workers[i] == Idle
    ensures s.shared.turns[0] == s.shared.turns[cfg.Streams() - 1] == s.started
  {
    var last := cfg.Streams() - 1;
    assert forall id: nat :: !Held(cfg, s, id);
    assert s.shared.turns[last] !in s.shared.buffer by {
      assert s.shared.turns[0] !in s.shared.buffer;
    }
  }
}
