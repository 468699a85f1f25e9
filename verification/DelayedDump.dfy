/** The delayed, single-threaded dump (`cr_delayed_dump_run` in src/dumper_thread.c). */
module DelayedDump {
  import opened Basics
  import opened Dumper
  import opened DumperObject

  // ---------------------------------------------------------------- the delayed run

  /** `dumps` is what the XML dump of the package yields: output or an error. */
  datatype DelayedPkg = DelayedPkg(srpm: Option<string>, skipDump: bool, dumps: bool)

  /** An entry of `delayed_write`: NULL when loading the package failed. */
  type DelayedTask = Option<DelayedPkg>

  predicate ToDump(t: DelayedTask) {
    t.Some? && !t.value.skipDump
  }

  function OutcomeOf(t: DelayedTask): Outcome {
    if ToDump(t) then Loaded(t.value.srpm) else Failed
  }

  function Outcomes(tasks: seq<DelayedTask>): seq<Outcome> {
    seq(|tasks|, i requires 0 <= i < |tasks| => OutcomeOf(tasks[i]))
  }

  predicate DumpFails(t: DelayedTask) {
    ToDump(t) && !t.value.dumps
  }

  /** The first task from `i` on whose XML dump fails (or, with `fails` false, does not fail); the number
      of tasks if there is none. */
  function FirstWhere(tasks: seq<DelayedTask>, i: nat, fails: bool): (b: nat)
    requires i <= |tasks|
    ensures i <= b <= |tasks|
    ensures b < |tasks| ==> DumpFails(tasks[b]) == fails
    ensures forall j :: i <= j < b ==> DumpFails(tasks[j]) != fails
    decreases |tasks| - i
  {
    if i == |tasks| || DumpFails(tasks[i]) == fails then i else FirstWhere(tasks, i + 1, fails)
  }

  function FirstBad(tasks: seq<DelayedTask>): nat {
    FirstWhere(tasks, 0, true)
  }

  /** All streams have passed the first `n` tasks and hold the sequential log. */
  predicate StandsAt(sh: Shared, outcomes: seq<Outcome>, n: nat)
    requires n <= |outcomes|
  {
    && |sh.turns| == |sh.logs|
    && |sh.turns| >= 3
    && (forall k :: 0 <= k < |sh.turns| ==> sh.turns[k] == n && sh.logs[k] == Sequential(outcomes, n))
    && sh.packageCount == |Sequential(outcomes, n)|
    && sh.curSrpm == LastSrpm(outcomes, n)
  }

  /** `wait_for_incremented_ids` when every turn is already there. */
  method WaitForIncrementedIds(ud: UserData, id: nat, ghost outcomes: seq<Outcome>)
    requires id < |outcomes| && outcomes[id].Failed? && StandsAt(ud.View(), outcomes, id)
    modifies ud
    ensures StandsAt(ud.View(), outcomes, id + 1)
  {
    assert ud.View().turns[0] == id;
    ud.Pass(0);
    ud.Pass(1);
    if ud.filelistsExt {
      ud.Pass(2);
      ud.Pass(3);
    } else {
      ud.Pass(2);
    }
  }

  /** `write_pkg` when every turn is already there. */
  method WritePkg(ud: UserData, id: nat, srpm: Option<string>, ghost outcomes: seq<Outcome>)
    requires id < |outcomes| && outcomes[id] == Loaded(srpm) && StandsAt(ud.View(), outcomes, id)
    modifies ud
    ensures StandsAt(ud.View(), outcomes, id + 1)
  {
    assert ud.View().turns[0] == ud.idPri;
    var newPkg := ud.WritePrimary(id, srpm);
    assert ud.View().turns[1] == ud.idFil;
    ud.WriteFilelists(id, newPkg);
    if ud.filelistsExt {
      assert ud.View().turns[2] == ud.idFex;
      ud.WriteFilelistsExt(id, newPkg);
    }
    assert ud.View().turns[|ud.View().turns| - 1] == ud.idOth;
    ud.WriteOther(id, newPkg);
  }

  /** The run itself. A failed XML dump advances no counter, so the next task that waits for its turn waits
      for one that nobody will ever pass on: `stuck` is the id of that task. */
  method DelayedDumpRun(ud: UserData, tasks: seq<DelayedTask>) returns (stuck: Option<nat>)
    requires StandsAt(ud.View(), Outcomes(tasks), 0)
    modifies ud
    ensures StandsAt(ud.View(), Outcomes(tasks), FirstBad(tasks))
    ensures var waiting := FirstWhere(tasks, FirstBad(tasks), false);
      stuck == if waiting < |tasks| && FirstBad(tasks) < |tasks| then Some(waiting) else None
  {
    ghost var outcomes := Outcomes(tasks);
    ghost var bad := FirstBad(tasks);
    stuck := None;
    var id := 0;
    while id < |tasks|
      invariant id <= |tasks|
      invariant StandsAt(ud.View(), outcomes, if id <= bad then id else bad)
      invariant id <= FirstWhere(tasks, bad, false) || id <= bad
    {
      assert ud.View().turns[0] == ud.idPri;
      var t := tasks[id];
      if t.None? || t.value.skipDump {
        if ud.idPri != id {
          return Some(id);
        }
        WaitForIncrementedIds(ud, id, outcomes);
      } else if t.value.dumps {
        if ud.idPri != id {
          return Some(id);
        }
        WritePkg(ud, id, t.value.srpm, outcomes);
      }
      id := id + 1;
    }
  }

  /** The delayed run gets to its end with every counter at the task count iff no XML dump fails; it hangs
      iff some task after the first failure does not fail itself. */
  lemma RunEndsIff(tasks: seq<DelayedTask>)
    ensures FirstBad(tasks) == |tasks| <==> forall t :: t in tasks && t.Some? && !t.value.skipDump ==> t.value.dumps
    ensures (FirstBad(tasks) < |tasks| && FirstWhere(tasks, FirstBad(tasks), false) < |tasks|) <==>
      exists i, j :: 0 <= i < j < |tasks| && DumpFails(tasks[i]) && !DumpFails(tasks[j])
  {
    var bad := FirstBad(tasks);
    var waiting := FirstWhere(tasks, bad, false);
    if bad < waiting < |tasks| {
      assert DumpFails(tasks[bad]) && !DumpFails(tasks[waiting]);
    }
    if bad == |tasks| {
      forall t | t in tasks
        ensures !DumpFails(t)
      {
        var i :| 0 <= i < |tasks| && tasks[i] == t;
      }
    }
  }

  /** A failing dump followed by a package that failed to load: the second waits forever. */
  lemma FailedDumpHangs(tasks: seq<DelayedTask>)
    requires tasks == [Some(DelayedPkg(None, false, false)), None]
    ensures FirstBad(tasks) == 0 && FirstWhere(tasks, FirstBad(tasks), false) == 1
  {
    assert DumpFails(tasks[0]) && !DumpFails(tasks[1]);
  }
}
