/** `struct UserData` and the critical sections of src/dumper_thread.c as methods that update it in place.
    A method models the body of a section once its mutex is held and its condition wait is over. */
module DumperObject {
  import opened Basics
  import opened Dumper

  lemma InsertFurther(buffer: seq<nat>, i: nat, id: nat)
    requires i < |buffer| && buffer[i] < id
    ensures buffer[..i] + InsertSorted(buffer[i..], id) == buffer[..i + 1] + InsertSorted(buffer[i + 1..], id)
  {
    assert buffer[i..][1..] == buffer[i + 1..];
    assert buffer[..i + 1] == buffer[..i] + [buffer[i]];
  }

  lemma InsertHere(buffer: seq<nat>, i: nat, id: nat)
    requires i <= |buffer| && (i < |buffer| ==> id <= buffer[i])
    ensures buffer[..i] + InsertSorted(buffer[i..], id) == buffer[..i] + [id] + buffer[i..]
  {
  }

  class UserData {
    const filelistsExt: bool
    const taskCount: nat
    var idPri: nat
    var idFil: nat
    var idFex: nat
    var idOth: nat
    var pri: seq<Entry>
    var fil: seq<Entry>
    var fex: seq<Entry>
    var oth: seq<Entry>
    var packageCount: nat
    var prevSrpm: Option<string>
    var curSrpm: Option<string>
    var buffer: seq<nat>

    function View(): Shared
      reads this
    {
      if filelistsExt then
        Shared([idPri, idFil, idFex, idOth], [pri, fil, fex, oth], packageCount, prevSrpm, curSrpm, buffer)
      else
        Shared([idPri, idFil, idOth], [pri, fil, oth], packageCount, prevSrpm, curSrpm, buffer)
    }

    constructor (taskCount: nat, filelistsExt: bool)
      ensures this.taskCount == taskCount && this.filelistsExt == filelistsExt
      ensures forall cfg: Config :: cfg.filelistsExt == filelistsExt ==> View() == Init(cfg).shared
    {
      this.taskCount, this.filelistsExt := taskCount, filelistsExt;
      idPri, idFil, idFex, idOth := 0, 0, 0, 0;
      pri, fil, fex, oth := [], [], [], [];
      packageCount, prevSrpm, curSrpm, buffer := 0, None, None, [];
    }

    /** Primary section of `write_pkg`. */
    method WritePrimary(id: nat, srpm: Option<string>) returns (newPkg: bool)
      requires idPri == id
      modifies this
      ensures newPkg == (old(curSrpm) != srpm)
      ensures View() == WriteTurn(CountPackage(old(View()), srpm), 0, Entry(id, newPkg))
    {
      packageCount := packageCount + 1;
      prevSrpm := curSrpm;
      curSrpm := srpm;
      newPkg := false;
      if prevSrpm != curSrpm {
        newPkg := true;
      }
      idPri := idPri + 1;
      pri := pri + [Entry(id, newPkg)];
    }

    method WriteFilelists(id: nat, newPkg: bool)
      requires idFil == id
      modifies this
      ensures View() == WriteTurn(old(View()), 1, Entry(id, newPkg))
    {
      idFil := idFil + 1;
      fil := fil + [Entry(id, newPkg)];
    }

    method WriteFilelistsExt(id: nat, newPkg: bool)
      requires filelistsExt && idFex == id
      modifies this
      ensures View() == WriteTurn(old(View()), 2, Entry(id, newPkg))
    {
      idFex := idFex + 1;
      fex := fex + [Entry(id, newPkg)];
    }

    method WriteOther(id: nat, newPkg: bool)
      requires idOth == id
      modifies this
      ensures View() == WriteTurn(old(View()), |old(View()).turns| - 1, Entry(id, newPkg))
    {
      idOth := idOth + 1;
      oth := oth + [Entry(id, newPkg)];
    }

    /** One of the four sections of `wait_for_incremented_ids`. */
    method Pass(stage: nat)
      requires stage < |View().turns|
      modifies this
      ensures View() == PassTurn(old(View()), stage)
    {
      if stage == 0 {
        idPri := idPri + 1;
      } else if stage == 1 {
        idFil := idFil + 1;
      } else if stage == 2 && filelistsExt {
        idFex := idFex + 1;
      } else {
        idOth := idOth + 1;
      }
    }

    /** The section that either saves a finished task in the buffer or tells its worker to write it. */
    method BufferOrNot(id: nat) returns (buffered: bool)
      modifies this
      ensures buffered == ShouldBuffer(old(View()), taskCount, id)
      ensures buffered <==> |old(buffer)| < 20 && old(idPri) != id && id + 1 < taskCount
      ensures View() == if buffered then old(View()).(buffer := InsertSorted(old(buffer), id)) else old(View())
    {
      buffered := |buffer| < MAX_TASK_BUFFER_LEN && idPri != id && taskCount > id + 1;
      if buffered {
        var i := 0;
        while i < |buffer| && buffer[i] < id
          invariant i <= |buffer| && unchanged(this)
          invariant InsertSorted(buffer, id) == buffer[..i] + InsertSorted(buffer[i..], id)
        {
          InsertFurther(buffer, i, id);
          i := i + 1;
        }
        InsertHere(buffer, i, id);
        assert InsertSorted(buffer, id) == buffer[..i] + [id] + buffer[i..];
        buffer := buffer[..i] + [id] + buffer[i..];
      }
    }

    /** The drain check: take the head of the buffer if its turn has come. */
    method PopTurn() returns (popped: Option<nat>)
      modifies this
      ensures popped == if old(buffer) != [] && old(buffer)[0] == idPri then Some(old(buffer)[0]) else None
      ensures View() == if popped.Some? then old(View()).(buffer := old(buffer)[1..]) else old(View())
    {
      popped := None;
      if buffer != [] && buffer[0] == idPri {
        popped := Some(buffer[0]);
        buffer := buffer[1..];
      }
    }

    /** One step of a worker on this object is the step of the transition system. */
    method StepWorker(cfg: Config, ghost s: State, ghost w: nat, worker: Worker) returns (worker': Worker)
      requires cfg.TaskCount() == taskCount && cfg.filelistsExt == filelistsExt
      requires WellFormed(cfg, s) && w < |s.workers| && s.workers[w] == worker
      requires s.shared == View() && worker != Idle && Enabled(cfg, s, w)
      modifies this
      ensures Step(cfg, s, w) == s.(shared := View(), workers := s.workers[w := worker'])
    {
      match worker
      case Loading(id) =>
        worker' := if cfg.outcomes[id].Loaded? then Buffering(id) else Cleanup(id);
      case Buffering(id) =>
        var buffered := BufferOrNot(id);
        worker' := if buffered then Idle else Writing(id, 0, false, true);
      case Writing(id, stage, newPkg, own) =>
        var newPkg1 := newPkg;
        if stage == 0 {
          newPkg1 := WritePrimary(id, cfg.outcomes[id].srpm);
        } else if stage == 1 {
          WriteFilelists(id, newPkg);
        } else if stage == 2 && filelistsExt {
          WriteFilelistsExt(id, newPkg);
        } else {
          WriteOther(id, newPkg);
        }
        worker' := if stage + 1 < cfg.Streams() then Writing(id, stage + 1, newPkg1, own)
                   else if own then Cleanup(id) else Draining;
      case Skipping(id, stage) =>
        Pass(stage);
        worker' := if stage + 1 < cfg.Streams() then Skipping(id, stage + 1) else Draining;
      case Cleanup(id) =>
        worker' := if idPri <= id then Skipping(id, 0) else Draining;
      case Draining =>
        var popped := PopTurn();
        worker' := if popped.Some? then Writing(popped.value, 0, false, false) else Idle;
    }
  }
}
