/**
 Cover operations over whole runs of several processes.

 An event is one critical section under the asset-root lock, cut off by its fault schedule wherever
 that says, or something that happens between such sections: a late failure report by a process
 whose recovery returned an error, pruning of completed rows, and any other use of the library that
 stays off the files of an unfinished cover operation. Recovery may work from a stale list, so it can
 be asked to recover any operation that was ever recorded, finished or not.
 */
module CoverRuns {
  import opened Basics
  import opened Storage
  import opened Covers
  import opened CoverSafety

  /** A recorded operation with the files it started from. */
  datatype Record = Record(op: CoverOperation, before: Files)

  /** How an operation looked when its row became Completed. */
  datatype Settlement = Settlement(files: Files, romExists: bool, committed: bool)

  datatype System = System(
    world: World,
    records: map<string, Record>,
    owed: set<string>,
    settled: map<string, Settlement>)
  {
    predicate Unfinished(id: string) {
      id in records && id in world.journal && world.journal[id] != Completed
    }
  }

  datatype Event =
    | Replacing(id: string, op: CoverOperation, faults: seq<Fault>)
    | Recovering(id: string, faults: seq<Fault>)
    | RecordingFailure(id: string)
    | Pruning(ids: set<string>)
    | Elsewhere(files: Files, roms: set<int>)

  function NewlySettled(w: World, records: map<string, Record>, settled: map<string, Settlement>)
    : map<string, Settlement>
  {
    map id | id in records && id !in settled && id in w.journal && w.journal[id] == Completed
      :: Settlement(w.files, records[id].op.rom in w.roms, id in w.committed)
  }

  function Observe(sys: System): System {
    sys.(settled := sys.settled + NewlySettled(sys.world, sys.records, sys.settled))
  }

  ghost predicate Enabled(sys: System, root: string, e: Event) {
    match e
    case Replacing(id, op, _) =>
      // Preparing a cover first reconciles every pending one under the same lock.
      (forall other :: !sys.Unfinished(other)) &&
      id !in sys.records && id !in sys.world.journal && id !in sys.world.committed &&
      WellTyped(op) && NoRepeats(op.Slots()) && Separate(op.Slots()) &&
      (forall s :: s in op.Slots() ==> Planned(sys.world.files, root, s))
    case Recovering(id, faults) =>
      id in sys.records &&
      (sys.Unfinished(id) && id in sys.world.committed ==> NoIoErrors(faults))
    case RecordingFailure(id) => id in sys.owed
    case Pruning(ids) => forall id :: id in ids ==> id in sys.world.journal && sys.world.journal[id] == Completed
    case Elsewhere(files, roms) =>
      forall id :: sys.Unfinished(id) ==>
        (forall at :: InArea(root, sys.records[id].op.Slots(), at) ==> Same(sys.world.files, files, at)) &&
        (sys.records[id].op.rom in roms ==> sys.records[id].op.rom in sys.world.roms)
  }

  function Next(sys: System, root: string, e: Event): System
    requires e.Replacing? ==> WellTyped(e.op)
    requires e.Recovering? ==> e.id in sys.records
  {
    match e
    case Replacing(id, op, faults) =>
      var r := Replace(sys.world.(faults := faults), root, id, op);
      Observe(sys.(world := r.world, records := sys.records[id := Record(op, sys.world.files)]))
    case Recovering(id, faults) =>
      var r := Reconcile(sys.world.(faults := faults), root, id, sys.records[id].op);
      Observe(sys.(world := r.world, owed := if r.Error? then sys.owed + {id} else sys.owed))
    case RecordingFailure(id) =>
      sys.(world := sys.world.(journal := Written(sys.world.journal, id, Failed)), owed := sys.owed - {id})
    case Pruning(ids) =>
      sys.(world := sys.world.(journal := sys.world.journal - ids))
    case Elsewhere(files, roms) =>
      sys.(world := sys.world.(files := files, roms := roms))
  }

  ghost predicate Allowed(sys: System, root: string, events: seq<Event>)
    decreases |events|
  {
    events == [] || (Enabled(sys, root, events[0]) && Allowed(Next(sys, root, events[0]), root, events[1..]))
  }

  ghost function After(sys: System, root: string, events: seq<Event>): System
    requires Allowed(sys, root, events)
    decreases |events|
  {
    if events == [] then sys else After(Next(sys, root, events[0]), root, events[1..])
  }

  // ---------- one critical section ----------

  /** What a journal state promises about the files of an operation and about its transaction. */
  ghost predicate Promise(
      state: FileOperationState, committed: bool, f: Files, before: Files, root: string, slots: seq<Slot>)
  {
    match state
    case Prepared => !committed && AllRecoverable(f, before, root, slots)
    case Failed => !committed && AllRecoverable(f, before, root, slots)
    case DbCommitted => committed && AllReplaced(f, before, root, slots)
    case CleanupPending => committed && AllReplaced(f, before, root, slots)
    case Completed => if committed then AllFinal(f, root, slots) else AllOriginal(f, before, root, slots)
  }

  ghost predicate Consistent(w: World, root: string, id: string, op: CoverOperation, before: Files)
    requires id in w.journal
  {
    Promise(w.journal[id], id in w.committed, w.files, before, root, op.Slots())
  }

  /** Only this operation's row, commit mark and files may differ. */
  ghost predicate OnlyAbout(w: World, w': World, root: string, id: string, op: CoverOperation) {
    w'.roms == w.roms && RowsBut(w, w', id) && OnlyTouches(w.files, w'.files, root, op.Slots())
  }

  ghost predicate RowsBut(w: World, w': World, id: string) {
    w.committed <= w'.committed <= w.committed + {id} &&
    w.journal.Keys <= w'.journal.Keys <= w.journal.Keys + {id} &&
    (forall other :: other in w.journal && other != id ==> w'.journal[other] == w.journal[other])
  }

  lemma AboutTransitive(w: World, w': World, w'': World, root: string, id: string, op: CoverOperation)
    requires OnlyAbout(w, w', root, id, op) && OnlyAbout(w', w'', root, id, op)
    ensures OnlyAbout(w, w'', root, id, op)
  {
    forall at | !InArea(root, op.Slots(), at) ensures Same(w.files, w''.files, at) {
      assert Same(w.files, w'.files, at) && Same(w'.files, w''.files, at);
    }
  }

  /** A run over files alone concerns nothing but the operation whose files it touches. */
  lemma FilesAreAbout<T>(w: World, r: Run<T>, root: string, id: string, op: CoverOperation)
    requires Sound(w, r) && OnlyTouches(w.files, r.world.files, root, op.Slots())
    ensures OnlyAbout(w, r.world, root, id, op)
  {
  }

  /** Writing a state whose promise already holds, at any fault. */
  lemma SetStateSafe(w: World, root: string, id: string, op: CoverOperation, state: FileOperationState)
    requires id in w.journal && w.journal[id] != Completed
    ensures var r := SetState(w, id, state);
      && OnlyAbout(w, r.world, root, id, op) && r.world.files == w.files && r.world.committed == w.committed
      && id in r.world.journal && r.world.journal[id] == (if r.Done? then state else w.journal[id])
      && (NoIoErrors(w.faults) ==> !r.Error?) && (w.faults == [] ==> r.Done?)
  {
    assert OnlyTouches(w.files, w.files, root, op.Slots());
  }

  lemma RollbackAndRecordSafe(w: World, root: string, id: string, op: CoverOperation, why: Reason, before: Files)
    requires Separate(op.Slots()) && AllRecoverable(w.files, before, root, op.Slots())
    requires id in w.journal && w.journal[id] == Prepared && id !in w.committed
    ensures var w' := RollbackAndRecord(w, root, id, op, why).world;
      && OnlyAbout(w, w', root, id, op) && id in w'.journal && Consistent(w', root, id, op, before)
  {
    RollbackSafe(w, root, op, before);
    var rolled := Rollback(w, root, op);
    FilesAreAbout(w, rolled, root, id, op);
    if !rolled.Crashed? {
      var state := if rolled.Done? then Completed else Failed;
      SetStateSafe(rolled.world, root, id, op, state);
      AboutTransitive(w, rolled.world, SetState(rolled.world, id, state).world, root, id, op);
    }
  }

  lemma FinishSafe(w: World, root: string, id: string, op: CoverOperation, before: Files)
    requires WellTyped(op) && Separate(op.Slots()) && AllReplaced(w.files, before, root, op.Slots())
    requires id in w.journal && w.journal[id] == DbCommitted && id in w.committed
    ensures var w' := Finish(w, root, id, op).world;
      && OnlyAbout(w, w', root, id, op) && id in w'.journal && Consistent(w', root, id, op, before)
  {
    CleanupSafe(w, root, op, before);
    var cleaned := Cleanup(w, root, op);
    FilesAreAbout(w, cleaned, root, id, op);
    if !cleaned.Crashed? {
      var state := if cleaned.Done? then Completed else CleanupPending;
      SetStateSafe(cleaned.world, root, id, op, state);
      AboutTransitive(w, cleaned.world, SetState(cleaned.world, id, state).world, root, id, op);
    }
  }

  /** From the transaction on: it commits and cleans up, or fails and rolls back. */
  function SaveAndFinish(w: World, root: string, id: string, op: CoverOperation): Run<()> {
    var saved := CommitCover(w, id, op.rom);
    if saved.Crashed? then saved
    else if saved.Error? then RollbackAndRecord(saved.world, root, id, op, saved.reason)
    else Finish(saved.world, root, id, op)
  }

  lemma SaveAndFinishSafe(w: World, root: string, id: string, op: CoverOperation, before: Files)
    requires id in w.journal && w.journal[id] == Prepared && id !in w.committed
    requires WellTyped(op) && Separate(op.Slots())
    requires AllRecoverable(w.files, before, root, op.Slots()) && AllReplaced(w.files, before, root, op.Slots())
    ensures var w' := SaveAndFinish(w, root, id, op).world;
      && OnlyAbout(w, w', root, id, op) && id in w'.journal && Consistent(w', root, id, op, before)
  {
    var saved := CommitCover(w, id, op.rom);
    assert saved.world.files == w.files;
    assert OnlyAbout(w, saved.world, root, id, op);
    if saved.Error? {
      RollbackAndRecordSafe(saved.world, root, id, op, saved.reason, before);
      AboutTransitive(w, saved.world, SaveAndFinish(w, root, id, op).world, root, id, op);
    } else if saved.Done? {
      FinishSafe(saved.world, root, id, op, before);
      AboutTransitive(w, saved.world, SaveAndFinish(w, root, id, op).world, root, id, op);
    }
  }

  lemma StagedIsReplaced(f: Files, before: Files, root: string, slots: seq<Slot>)
    requires forall s :: s in slots ==> Staged(f, before, root, s)
    ensures AllReplaced(f, before, root, slots)
  {
    forall s | s in slots ensures Replaced(f, before, root, s) {
      assert Staged(f, before, root, s);
    }
  }

  lemma ReplaceSafe(w: World, root: string, id: string, op: CoverOperation)
    requires id !in w.journal && id !in w.committed
    requires WellTyped(op) && NoRepeats(op.Slots()) && Separate(op.Slots())
    requires forall s :: s in op.Slots() ==> Planned(w.files, root, s)
    ensures var w' := Replace(w, root, id, op).world;
      && OnlyAbout(w, w', root, id, op)
      && (id in w'.journal ==> Consistent(w', root, id, op, w.files))
      && (id !in w'.journal ==> id !in w'.committed)
  {
    var r1 := CreateRow(w, id);
    assert r1.world.files == w.files && OnlyAbout(w, r1.world, root, id, op);
    if r1.Done? {
      StageSafe(r1.world, root, op);
      var r2 := Stage(r1.world, root, op);
      FilesAreAbout(r1.world, r2, root, id, op);
      AboutTransitive(w, r1.world, r2.world, root, id, op);
      if r2.Error? {
        RollbackAndRecordSafe(r2.world, root, id, op, r2.reason, w.files);
        AboutTransitive(w, r2.world, Replace(w, root, id, op).world, root, id, op);
      } else if r2.Done? {
        StagedIsReplaced(r2.world.files, w.files, root, op.Slots());
        SaveAndFinishSafe(r2.world, root, id, op, w.files);
        AboutTransitive(w, r2.world, Replace(w, root, id, op).world, root, id, op);
      }
    }
  }

  lemma SettleSafe(w: World, root: string, id: string, op: CoverOperation, state: FileOperationState, before: Files)
    requires WellTyped(op) && Separate(op.Slots()) && state != Completed
    requires op.rom in w.roms ==> Promise(state, id in w.committed, w.files, before, root, op.Slots())
    ensures var r := Settle(w, root, op, state, op.rom in w.roms);
      && OnlyAbout(w, r.world, root, id, op) && r.world.journal == w.journal && r.world.committed == w.committed
      && (op.rom in w.roms ==>
            Promise(if r.Done? then Completed else state, id in w.committed, r.world.files, before, root, op.Slots()) &&
            (NoIoErrors(w.faults) ==> NoIoErrors(r.world.faults) && !r.Error?) &&
            (w.faults == [] ==> r.world.faults == [] && r.Done?))
  {
    var r := Settle(w, root, op, state, op.rom in w.roms);
    if op.rom !in w.roms {
      DiscardSafe(w, root, op);
    } else if state in {Prepared, Failed} {
      RollbackSafe(w, root, op, before);
      FilesAreAbout(w, r, root, id, op);
    } else {
      CleanupSafe(w, root, op, before);
      FilesAreAbout(w, r, root, id, op);
    }
  }

  ghost predicate Recovered(w: World, r: Run<()>, root: string, id: string, op: CoverOperation, before: Files)
    requires id in w.journal
  {
    OnlyAbout(w, r.world, root, id, op) && id in r.world.journal && r.world.committed == w.committed &&
    r.world.journal[id] in {w.journal[id], Completed} &&
    (op.rom in w.roms ==>
      Consistent(r.world, root, id, op, before) && (NoIoErrors(w.faults) ==> !r.Error?) &&
      (w.faults == [] ==> r.Done? && r.world.journal[id] == Completed))
  }

  lemma SettleAndCompleteSafe(w: World, root: string, id: string, op: CoverOperation, before: Files)
    requires WellTyped(op) && Separate(op.Slots())
    requires id in w.journal && w.journal[id] != Completed
    requires op.rom in w.roms ==> Consistent(w, root, id, op, before)
    ensures Recovered(w, SettleAndComplete(w, root, id, op, w.journal[id], op.rom in w.roms), root, id, op, before)
  {
    SettleSafe(w, root, id, op, w.journal[id], before);
    var settled := Settle(w, root, op, w.journal[id], op.rom in w.roms);
    if settled.Done? {
      SetStateSafe(settled.world, root, id, op, Completed);
      AboutTransitive(w, settled.world, SetState(settled.world, id, Completed).world, root, id, op);
    }
  }

  /** Up to the settlement a recovery only reads: it stops there, or settles under the faults that are left. */
  lemma ReconcileReadsFirst(w: World, root: string, id: string, op: CoverOperation)
    returns (stopped: bool, faults: seq<Fault>)
    requires id in w.journal && w.journal[id] != Completed
    ensures var r := Reconcile(w, root, id, op);
      if stopped then r.world == w.(faults := faults) && (NoIoErrors(w.faults) ==> !r.Error?)
      else r == SettleAndComplete(w.(faults := faults), root, id, op, w.journal[id], op.rom in w.roms)
    ensures NoIoErrors(w.faults) ==> NoIoErrors(faults)
    ensures w.faults == [] ==> faults == [] && !stopped
  {
    var r1 := StateById(w, id);
    if r1.Done? {
      var r2 := RomExists(r1.world, op.rom);
      stopped, faults := !r2.Done?, r2.world.faults;
      assert r2.world == w.(faults := faults);
    } else {
      stopped, faults := true, r1.world.faults;
    }
  }

  lemma ReconcileSafe(w: World, root: string, id: string, op: CoverOperation, before: Files)
    requires WellTyped(op) && Separate(op.Slots())
    requires id in w.journal && w.journal[id] != Completed
    requires op.rom in w.roms ==> Consistent(w, root, id, op, before)
    ensures Recovered(w, Reconcile(w, root, id, op), root, id, op, before)
  {
    var stopped, faults := ReconcileReadsFirst(w, root, id, op);
    if stopped {
      assert OnlyTouches(w.files, w.files, root, op.Slots());
    } else {
      SettleAndCompleteSafe(w.(faults := faults), root, id, op, before);
    }
  }

  /** A completed operation is never replayed, nor is one whose row has been pruned. */
  lemma CompletedIsNotReplayed(w: World, root: string, id: string, op: CoverOperation)
    requires id in w.journal ==> w.journal[id] == Completed
    ensures Reconcile(w, root, id, op).world == w.(faults := Reconcile(w, root, id, op).world.faults)
  {
  }

  // ---------- whole runs ----------

  ghost predicate SettledWell(sys: System, root: string, id: string)
    requires id in sys.records && id in sys.settled
  {
    var seen, rec := sys.settled[id], sys.records[id];
    (seen.committed <==> id in sys.world.committed) &&
    (seen.romExists ==>
      if seen.committed then AllFinal(seen.files, root, rec.op.Slots())
      else AllOriginal(seen.files, rec.before, root, rec.op.Slots()))
  }

  ghost predicate RecordOk(sys: System, root: string, id: string)
    requires id in sys.records
  {
    var rec := sys.records[id];
    WellTyped(rec.op) && Separate(rec.op.Slots()) &&
    (sys.Unfinished(id) ==> id !in sys.settled) &&
    (sys.Unfinished(id) && rec.op.rom in sys.world.roms ==>
      Consistent(sys.world, root, id, rec.op, rec.before) && (id in sys.owed ==> id !in sys.world.committed)) &&
    (id in sys.world.journal && sys.world.journal[id] == Completed ==> id in sys.settled) &&
    (id in sys.settled ==> SettledWell(sys, root, id))
  }

  ghost predicate Inv(sys: System, root: string) {
    (forall id :: id in sys.records ==> RecordOk(sys, root, id)) &&
    (forall i, j :: sys.Unfinished(i) && sys.Unfinished(j) ==> i == j) &&
    sys.settled.Keys <= sys.records.Keys && sys.owed <= sys.records.Keys
  }

  ghost predicate Initial(sys: System) {
    sys.records == map[] && sys.owed == {} && sys.settled == map[]
  }

  /** The record a critical section was about is fine afterwards, given where the section left the world. */
  lemma ObservedRecordOk(sys: System, root: string, id: string)
    requires id in sys.records && id !in sys.settled
    requires WellTyped(sys.records[id].op) && Separate(sys.records[id].op.Slots())
    requires sys.records[id].op.rom in sys.world.roms && id in sys.world.journal ==>
      Consistent(sys.world, root, id, sys.records[id].op, sys.records[id].before)
    requires sys.Unfinished(id) && sys.records[id].op.rom in sys.world.roms && id in sys.owed ==>
      id !in sys.world.committed
    ensures RecordOk(Observe(sys), root, id)
  {
  }

  /** A settled record, or one without a row, does not notice a critical section about another one. */
  lemma OtherRecordOk(sys: System, sys': System, root: string, id: string)
    requires id in sys.records && id in sys'.records && sys'.records[id] == sys.records[id]
    requires RecordOk(sys, root, id) && !sys.Unfinished(id) && sys'.settled == sys.settled
    requires id in sys'.world.journal ==> id in sys.world.journal && sys'.world.journal[id] == sys.world.journal[id]
    requires id in sys'.world.committed <==> id in sys.world.committed
    ensures RecordOk(Observe(sys'), root, id) && !Observe(sys').Unfinished(id)
  {
  }

  lemma ReplacingKeepsInv(sys: System, root: string, e: Event)
    requires e.Replacing? && Inv(sys, root) && Enabled(sys, root, e)
    ensures Inv(Next(sys, root, e), root)
  {
    var w := sys.world.(faults := e.faults);
    ReplaceSafe(w, root, e.id, e.op);
    var sys' := sys.(world := Replace(w, root, e.id, e.op).world,
                     records := sys.records[e.id := Record(e.op, sys.world.files)]);
    assert Next(sys, root, e) == Observe(sys');
    forall id | id in sys'.records
      ensures RecordOk(Observe(sys'), root, id) && (id != e.id ==> !Observe(sys').Unfinished(id))
    {
      if id == e.id {
        ObservedRecordOk(sys', root, id);
      } else {
        OtherRecordOk(sys, sys', root, id);
      }
    }
  }

  lemma RecoveringKeepsInv(sys: System, root: string, e: Event)
    requires e.Recovering? && Inv(sys, root) && Enabled(sys, root, e)
    ensures Inv(Next(sys, root, e), root)
  {
    var next, rec := Next(sys, root, e), sys.records[e.id];
    assert RecordOk(sys, root, e.id);
    if sys.Unfinished(e.id) {
      var w := sys.world.(faults := e.faults);
      ReconcileSafe(w, root, e.id, rec.op, rec.before);
      var r := Reconcile(w, root, e.id, rec.op);
      var sys' := sys.(world := r.world, owed := if r.Error? then sys.owed + {e.id} else sys.owed);
      forall id | id in sys'.records
        ensures RecordOk(Observe(sys'), root, id) && (id != e.id ==> !Observe(sys').Unfinished(id))
      {
        if id == e.id {
          ObservedRecordOk(sys', root, id);
        } else {
          OtherRecordOk(sys, sys', root, id);
        }
      }
    } else {
      CompletedIsNotReplayed(sys.world.(faults := e.faults), root, e.id, rec.op);
      forall id | id in next.records ensures RecordOk(next, root, id) {
        assert RecordOk(sys, root, id);
        assert next.Unfinished(id) == sys.Unfinished(id);
      }
      forall i, j | next.Unfinished(i) && next.Unfinished(j) ensures i == j {
        assert sys.Unfinished(i) && sys.Unfinished(j);
      }
    }
  }

  lemma ElsewhereKeepsInv(sys: System, root: string, e: Event)
    requires e.Elsewhere? && Inv(sys, root) && Enabled(sys, root, e)
    ensures Inv(Next(sys, root, e), root)
  {
    var next := Next(sys, root, e);
    forall id | id in next.records ensures RecordOk(next, root, id) {
      assert RecordOk(sys, root, id);
      if sys.Unfinished(id) && sys.records[id].op.rom in next.world.roms {
        var rec := sys.records[id];
        forall s | s in rec.op.Slots()
          ensures Recoverable(sys.world.files, rec.before, root, s) == Recoverable(e.files, rec.before, root, s)
          ensures Replaced(sys.world.files, rec.before, root, s) == Replaced(e.files, rec.before, root, s)
        {
          assert Within(root, s, Location(root, s.path));
          assert Same(sys.world.files, e.files, Location(root, s.path));
          if s.backup.Some? {
            assert Within(root, s, Location(root, s.backup.value));
            assert Same(sys.world.files, e.files, Location(root, s.backup.value));
          }
        }
      }
    }
    forall i, j | next.Unfinished(i) && next.Unfinished(j) ensures i == j {
      assert sys.Unfinished(i) && sys.Unfinished(j);
    }
  }

  lemma StepKeepsInv(sys: System, root: string, e: Event)
    requires Inv(sys, root) && Enabled(sys, root, e)
    ensures Inv(Next(sys, root, e), root)
  {
    var next := Next(sys, root, e);
    match e
    case Replacing(_, _, _) => ReplacingKeepsInv(sys, root, e);
    case Recovering(_, _) => RecoveringKeepsInv(sys, root, e);
    case Elsewhere(_, _) => ElsewhereKeepsInv(sys, root, e);
    case _ =>
      forall id | id in next.records ensures RecordOk(next, root, id) {
        assert RecordOk(sys, root, id);
        assert next.Unfinished(id) ==> sys.Unfinished(id);
      }
      forall i, j | next.Unfinished(i) && next.Unfinished(j) ensures i == j {
        assert sys.Unfinished(i) && sys.Unfinished(j);
      }
  }

  lemma {:induction false} RunKeepsInv(sys: System, root: string, events: seq<Event>)
    requires Inv(sys, root) && Allowed(sys, root, events)
    ensures Inv(After(sys, root, events), root)
    decreases |events|
  {
    if events != [] {
      StepKeepsInv(sys, root, events[0]);
      RunKeepsInv(Next(sys, root, events[0]), root, events[1..]);
    }
  }

  /**
   Atomicity over every run: at most one operation is unfinished; a completed one has been seen to
   end, and if its ROM was still there, its paths then held exactly the new files and no backups when
   its transaction committed, and exactly the old files otherwise.
   */
  lemma CoversAreAtomic(sys: System, root: string, events: seq<Event>)
    requires Initial(sys) && Allowed(sys, root, events)
    ensures var end := After(sys, root, events);
      && (forall i, j :: end.Unfinished(i) && end.Unfinished(j) ==> i == j)
      && (forall id :: id in end.records && id in end.world.journal && end.world.journal[id] == Completed ==>
            id in end.settled)
      && (forall id :: id in end.settled ==> id in end.records && (end.settled[id].romExists ==>
            if id in end.world.committed
            then AllFinal(end.settled[id].files, root, end.records[id].op.Slots())
            else AllOriginal(end.settled[id].files, end.records[id].before, root, end.records[id].op.Slots())))
  {
    RunKeepsInv(sys, root, events);
    var end := After(sys, root, events);
    forall id | id in end.records
      ensures id in end.world.journal && end.world.journal[id] == Completed ==> id in end.settled
      ensures id in end.settled ==> SettledWell(end, root, id)
    {
      assert RecordOk(end, root, id);
    }
  }

  /** In every reachable state, recovering an operation that has completed changes no file, row or ROM. */
  lemma CompletedIsNeverReplayed(sys: System, root: string, events: seq<Event>, id: string, faults: seq<Fault>)
    requires Initial(sys) && Allowed(sys, root, events)
    requires id in After(sys, root, events).settled
    ensures var end := After(sys, root, events);
      && id in end.records
      && var w := Reconcile(end.world.(faults := faults), root, id, end.records[id].op).world;
         w.files == end.world.files && w.journal == end.world.journal && w.roms == end.world.roms
  {
    RunKeepsInv(sys, root, events);
    var end := After(sys, root, events);
    assert RecordOk(end, root, id);
    CompletedIsNotReplayed(end.world.(faults := faults), root, id, end.records[id].op);
  }

  /**
   Recovery makes progress: in every reachable state, one undisturbed recovery completes an unfinished
   operation whose ROM exists, and leaves exactly its new files if it committed, its old ones if not.
   */
  lemma RecoveryCompletes(sys: System, root: string, events: seq<Event>, id: string)
    requires Initial(sys) && Allowed(sys, root, events)
    requires After(sys, root, events).Unfinished(id)
    requires After(sys, root, events).records[id].op.rom in After(sys, root, events).world.roms
    ensures var end := After(sys, root, events);
      var rec := end.records[id];
      var r := Reconcile(end.world.(faults := []), root, id, rec.op);
      && r.Done? && id in r.world.journal && r.world.journal[id] == Completed
      && if id in end.world.committed
         then AllFinal(r.world.files, root, rec.op.Slots())
         else AllOriginal(r.world.files, rec.before, root, rec.op.Slots())
  {
    RunKeepsInv(sys, root, events);
    var end := After(sys, root, events);
    assert RecordOk(end, root, id);
    ReconcileSafe(end.world.(faults := []), root, id, end.records[id].op, end.records[id].before);
  }

  // ---------- the limit of the hypothesis: an error reported after the commit ----------

  /** Rolling this committed slot back would leave its new content in place. */
  ghost predicate SurvivesRollback(f: Files, root: string, s: Slot) {
    s.Replacement? && s.backup.Some? &&
    (Location(root, s.backup.value) in f ==> f[Location(root, s.backup.value)] == File(s.bytes))
  }

  lemma {:induction false} MissingStopsRollback(w: World, root: string, slots: seq<Slot>, n: nat, i: nat)
    requires i < n <= |slots| && Separate(slots) && slots[i].Obsolete? && Gone(w.files, root, slots[i])
    requires slots[i].backup.Some?
    ensures !RollbackSlots(w, root, slots, n).Done?
    decreases n
  {
    var s := slots[n - 1];
    var r := RollbackSlot(w, root, s);
    if r.Done? {
      if s == slots[i] {
        assert false;
      } else {
        RollbackSlotTouches(w, root, s);
        var t := slots[i];
        assert t.path in Footprint(t) && t.backup.value in Footprint(t);
        assert Same(w.files, r.world.files, Location(root, t.path));
        assert Same(w.files, r.world.files, Location(root, t.backup.value));
        if i < n - 1 {
          MissingStopsRollback(r.world, root, slots, n - 1, i);
        }
      }
    }
  }

  lemma RemoveTouches(w: World, root: string, s: Slot)
    ensures OnlyTouchesSlot(w.files, Remove(w, Location(root, s.path)).world.files, root, s)
  {
  }

  lemma MoveTouches(w: World, root: string, s: Slot, source: string, target: string)
    requires source in Footprint(s) && target in Footprint(s)
    ensures OnlyTouchesSlot(
              w.files, MoveManaged(w, Location(root, source), Location(root, target)).world.files, root, s)
  {
  }

  lemma RollbackSlotTouches(w: World, root: string, s: Slot)
    ensures OnlyTouchesSlot(w.files, RollbackSlot(w, root, s).world.files, root, s)
  {
    if s.backup.None? {
      RemoveTouches(w, root, s);
    } else {
      var here, there := Location(root, s.path), Location(root, s.backup.value);
      var r1 := Exists(w, there);
      if r1.Done? {
        var r2 := Exists(r1.world, here);
        if r2.Done? && r1.value && r2.value && s.Replacement? {
          RemoveTouches(r2.world, root, s);
          var r3 := Remove(r2.world, here);
          if r3.Done? {
            MoveTouches(r3.world, root, s, s.backup.value, s.path);
            TouchesSlotTransitive(w.files, r3.world.files, MoveManaged(r3.world, there, here).world.files, root, s);
          }
        } else if r2.Done? && r1.value && !r2.value {
          MoveTouches(r2.world, root, s, s.backup.value, s.path);
        }
      }
    }
  }

  /** What rollback would bring back from committed files. */
  ghost function BroughtBack(f: Files, root: string, slots: seq<Slot>): Files
    requires Separate(slots)
    requires forall s :: s in slots && s.backup.Some? ==>
      Location(root, s.backup.value) in f || Location(root, s.path) in f
  {
    map s | s in slots && s.backup.Some? ::
      Location(root, s.path) :=
        if Location(root, s.backup.value) in f then f[Location(root, s.backup.value)] else f[Location(root, s.path)]
  }

  lemma CommittedFilesLookHalfDone(f: Files, before: Files, root: string, slots: seq<Slot>, s: Slot)
    requires Separate(slots) && AllReplaced(f, before, root, slots) && s in slots
    requires forall t :: t in slots ==> (t.Obsolete? ==> t.backup.Some? && !Gone(f, root, t))
    ensures forall t :: t in slots && t.backup.Some? ==>
      Location(root, t.backup.value) in f || Location(root, t.path) in f
    ensures Recoverable(f, BroughtBack(f, root, slots), root, s)
  {
    forall t | t in slots && t.backup.Some?
      ensures Location(root, t.backup.value) in f || Location(root, t.path) in f
    {
      assert Replaced(f, before, root, t);
    }
    assert Replaced(f, before, root, s);
    forall t | t in slots && t.path == s.path ensures t == s {
      assert t.path in Footprint(t) && s.path in Footprint(s);
    }
  }

  /**
   Without the hypothesis, exactly these committed operations are still completed with their new files
   when an undisturbed recovery follows: those whose row kept a post-commit state, and those whose
   every path has a backup entry that is already dropped or holds the new content anyway.
   */
  lemma WhenCommittedCoverSurvives(w: World, root: string, id: string, op: CoverOperation, before: Files)
    requires WellTyped(op) && Separate(op.Slots()) && AllReplaced(w.files, before, root, op.Slots())
    requires id in w.journal && w.journal[id] != Completed && op.rom in w.roms && w.faults == []
    ensures var r := Reconcile(w, root, id, op);
      (r.Done? && AllFinal(r.world.files, root, op.Slots())) <==>
      (w.journal[id] in {DbCommitted, CleanupPending} ||
       forall s :: s in op.Slots() ==> SurvivesRollback(w.files, root, s))
  {
    var slots := op.Slots();
    if w.journal[id] in {DbCommitted, CleanupPending} {
      CleanupSafe(w, root, op, before);
    } else if i :| 0 <= i < |slots| && slots[i].Obsolete? && Gone(w.files, root, slots[i]) {
      SlotOrder(op);
      assert slots[i] in slots;
      MissingStopsRollback(w, root, slots, |slots|, i);
      assert !SurvivesRollback(w.files, root, slots[i]);
    } else {
      forall s | s in slots ensures s.Obsolete? ==> s.backup.Some? && !Gone(w.files, root, s) {
        var i :| 0 <= i < |slots| && slots[i] == s;
      }
      if slots != [] {
        CommittedFilesLookHalfDone(w.files, before, root, slots, slots[0]);
        var back := BroughtBack(w.files, root, slots);
        forall s | s in slots ensures Recoverable(w.files, back, root, s) {
          CommittedFilesLookHalfDone(w.files, before, root, slots, s);
        }
        RollbackSafe(w, root, op, back);
        var f := Rollback(w, root, op).world.files;
        forall s | s in slots ensures Final(f, root, s) <==> SurvivesRollback(w.files, root, s) {
          assert Original(f, back, root, s) && Replaced(w.files, before, root, s);
          assert Recoverable(w.files, back, root, s);
        }
      }
    }
  }

  ghost predicate SameSlot(f: Files, g: Files, root: string, s: Slot) {
    Same(f, g, Location(root, s.path)) && (s.backup.Some? ==> Same(f, g, Location(root, s.backup.value)))
  }

  lemma OtherSlotIsSame(f: Files, g: Files, root: string, slots: seq<Slot>, s: Slot, t: Slot)
    requires Separate(slots) && s in slots && t in slots && s != t && OnlyTouchesSlot(f, g, root, s)
    ensures SameSlot(f, g, root, t)
  {
    assert t.path in Footprint(t) && t.path !in Footprint(s);
    if t.backup.Some? {
      assert t.backup.value in Footprint(t) && t.backup.value !in Footprint(s);
    }
  }

  /** Rolling one committed replacement back never fails, and leaves its new content only in these cases. */
  lemma RollbackOfNew(w: World, root: string, s: Slot, before: Files)
    requires w.faults == [] && s.Replacement? && Replaced(w.files, before, root, s)
    requires s.backup.Some? ==> s.backup.value != s.path
    ensures var r := RollbackSlot(w, root, s);
      && r.Done? && r.world.faults == [] && OnlyTouchesSlot(w.files, r.world.files, root, s)
      && (HasNew(r.world.files, root, s) <==> SurvivesRollback(w.files, root, s))
  {
    RollbackSlotTouches(w, root, s);
  }

  /** Where the rollback of the entries of a committed operation leaves them, and the obsolete covers. */
  lemma {:induction false} RollbackOfEntries(w: World, root: string, slots: seq<Slot>, n: nat, base: nat, before: Files)
    returns (w': World)
    requires base <= n <= |slots| && Separate(slots) && NoRepeats(slots) && w.faults == []
    requires forall i :: base <= i < n ==> slots[i].Replacement? && Replaced(w.files, before, root, slots[i])
    ensures w'.faults == [] && RollbackSlots(w, root, slots, n) == RollbackSlots(w', root, slots, base)
    ensures forall i :: base <= i < n ==>
      (HasNew(w'.files, root, slots[i]) <==> SurvivesRollback(w.files, root, slots[i]))
    ensures forall i :: 0 <= i < |slots| && !(base <= i < n) ==> SameSlot(w.files, w'.files, root, slots[i])
    decreases n
  {
    w' := w;
    if n > base {
      var s := slots[n - 1];
      RollbackOfNew(w, root, s, before);
      var next := RollbackSlot(w, root, s).world;
      forall i | 0 <= i < |slots| && i != n - 1
        ensures SameSlot(w.files, next.files, root, slots[i])
        ensures Replaced(w.files, before, root, slots[i]) == Replaced(next.files, before, root, slots[i])
      {
        OtherSlotIsSame(w.files, next.files, root, slots, s, slots[i]);
        OtherSlotsKeep(w.files, next.files, before, root, slots, s, slots[i]);
      }
      w' := RollbackOfEntries(next, root, slots, n - 1, base, before);
      assert SameSlot(next.files, w'.files, root, s);
    }
  }

  /** Slots that are not rolled back stay as they are, wherever the rollback stops. */
  lemma {:induction false} RollbackKeepsTheRest(w: World, root: string, slots: seq<Slot>, n: nat, i: nat)
    requires n <= i < |slots| && Separate(slots) && NoRepeats(slots)
    ensures SameSlot(w.files, RollbackSlots(w, root, slots, n).world.files, root, slots[i])
    decreases n
  {
    if n > 0 {
      var s := slots[n - 1];
      RollbackSlotTouches(w, root, s);
      var r := RollbackSlot(w, root, s);
      OtherSlotIsSame(w.files, r.world.files, root, slots, s, slots[i]);
      if r.Done? {
        RollbackKeepsTheRest(r.world, root, slots, n - 1, i);
      }
    }
  }

  /** The obsolete cover that is reached first: without its backup the rollback stops, otherwise it comes back. */
  lemma RollbackOfObsolete(w: World, root: string, slots: seq<Slot>, n: nat)
    requires 0 < n <= |slots| && Separate(slots) && NoRepeats(slots) && w.faults == []
    requires slots[n - 1].Obsolete? && slots[n - 1].backup.Some? && HasNew(w.files, root, slots[n - 1])
    requires var there := Location(root, slots[n - 1].backup.value); there in w.files ==> w.files[there].File?
    ensures var f := RollbackSlots(w, root, slots, n).world.files;
      if Location(root, slots[n - 1].backup.value) in w.files then !HasNew(f, root, slots[n - 1]) else f == w.files
  {
    var s := slots[n - 1];
    var r := RollbackSlot(w, root, s);
    if Location(root, s.backup.value) in w.files {
      assert r == MoveManaged(w, Location(root, s.backup.value), Location(root, s.path));
      assert r.Done? && Location(root, s.path) in r.world.files;
      RollbackKeepsTheRest(r.world, root, slots, n - 1, n - 1);
    }
  }

  /** What an undisturbed rollback leaves of committed files. */
  ghost predicate NewFilesStay(f: Files, root: string, op: CoverOperation)
    requires WellTyped(op)
  {
    (forall s :: s in op.entries ==> SurvivesRollback(f, root, s)) &&
    (op.obsolete != [] ==>
      op.obsolete[|op.obsolete| - 1] in op.obsolete &&
      Location(root, op.obsolete[|op.obsolete| - 1].backup.value) !in f)
  }

  lemma RollbackOfCommitted(w: World, root: string, op: CoverOperation, before: Files)
    requires WellTyped(op) && Separate(op.Slots()) && NoRepeats(op.Slots()) && w.faults == []
    requires AllReplaced(w.files, before, root, op.Slots())
    ensures var f := Rollback(w, root, op).world.files;
      (forall s :: s in op.Slots() ==> HasNew(f, root, s)) <==> NewFilesStay(w.files, root, op)
  {
    var slots, base := op.Slots(), |op.obsolete|;
    forall i | base <= i < |slots| ensures slots[i].Replacement? && Replaced(w.files, before, root, slots[i]) {
      assert slots[i] == op.entries[i - base];
    }
    var w' := RollbackOfEntries(w, root, slots, |slots|, base, before);
    var f := RollbackSlots(w', root, slots, base).world.files;
    EntriesAfterRollback(w, w', f, root, op);
    if base > 0 {
      ObsoleteAfterEntries(w, w', root, op, before);
      RollbackOfObsolete(w', root, slots, base);
    }
    ObsoleteAfterRollback(w, w', f, root, op, before);
  }

  lemma ObsoleteAfterEntries(w: World, w': World, root: string, op: CoverOperation, before: Files)
    requires WellTyped(op) && op.obsolete != [] && AllReplaced(w.files, before, root, op.Slots())
    requires forall i :: 0 <= i < |op.obsolete| ==> SameSlot(w.files, w'.files, root, op.Slots()[i])
    ensures var s := op.Slots()[|op.obsolete| - 1];
      && s == op.obsolete[|op.obsolete| - 1] && s.Obsolete? && s.backup.Some? && HasNew(w'.files, root, s)
      && var there := Location(root, s.backup.value);
      (there in w'.files <==> there in w.files) && (there in w'.files ==> w'.files[there].File?)
  {
    var s := op.Slots()[|op.obsolete| - 1];
    assert s in op.obsolete && s in op.Slots() && Replaced(w.files, before, root, s);
    assert SameSlot(w.files, w'.files, root, s);
  }

  /** After the rollback the entries are as it left them before it came to the obsolete covers. */
  lemma EntriesAfterRollback(w: World, w': World, f: Files, root: string, op: CoverOperation)
    requires WellTyped(op) && Separate(op.Slots()) && NoRepeats(op.Slots())
    requires f == RollbackSlots(w', root, op.Slots(), |op.obsolete|).world.files
    requires forall i :: |op.obsolete| <= i < |op.Slots()| ==>
      (HasNew(w'.files, root, op.Slots()[i]) <==> SurvivesRollback(w.files, root, op.Slots()[i]))
    ensures forall s :: s in op.entries ==> (HasNew(f, root, s) <==> SurvivesRollback(w.files, root, s))
  {
    forall s | s in op.entries ensures HasNew(f, root, s) <==> SurvivesRollback(w.files, root, s) {
      var k :| 0 <= k < |op.entries| && op.entries[k] == s;
      assert op.Slots()[|op.obsolete| + k] == s;
      RollbackKeepsTheRest(w', root, op.Slots(), |op.obsolete|, |op.obsolete| + k);
    }
  }

  lemma ObsoleteAfterRollback(w: World, w': World, f: Files, root: string, op: CoverOperation, before: Files)
    requires WellTyped(op) && AllReplaced(w.files, before, root, op.Slots())
    requires forall i :: 0 <= i < |op.obsolete| ==> SameSlot(w.files, w'.files, root, op.Slots()[i])
    requires op.obsolete != [] ==>
      var last := op.obsolete[|op.obsolete| - 1];
      last.backup.Some? &&
      if Location(root, last.backup.value) in w.files then !HasNew(f, root, last) else f == w'.files
    requires forall s :: s in op.entries ==> (HasNew(f, root, s) <==> SurvivesRollback(w.files, root, s))
    ensures (forall s :: s in op.Slots() ==> HasNew(f, root, s)) <==> NewFilesStay(w.files, root, op)
  {
    SlotOrder(op);
    if op.obsolete != [] {
      var last := op.obsolete[|op.obsolete| - 1];
      assert last in op.obsolete && last in op.Slots();
      if Location(root, last.backup.value) !in w.files {
        forall s | s in op.obsolete ensures HasNew(f, root, s) {
          var k :| 0 <= k < |op.obsolete| && op.obsolete[k] == s;
          assert op.Slots()[k] == s && s in op.Slots();
          assert Replaced(w.files, before, root, s) && SameSlot(w.files, w'.files, root, s);
        }
      }
    }
  }

  /**
   Whether it is completed or gets stuck: exactly these committed operations still have all their new
   files in place after an undisturbed recovery. Either the row kept a post-commit state, or every
   entry has a backup that is dropped or holds the new content anyway, and the rollback then stops at
   the last obsolete cover because its backup is dropped too.
   */
  lemma WhenCommittedFilesStay(w: World, root: string, id: string, op: CoverOperation, before: Files)
    requires WellTyped(op) && Separate(op.Slots()) && NoRepeats(op.Slots())
    requires AllReplaced(w.files, before, root, op.Slots())
    requires id in w.journal && w.journal[id] != Completed && op.rom in w.roms && w.faults == []
    ensures var f := Reconcile(w, root, id, op).world.files;
      (forall s :: s in op.Slots() ==> HasNew(f, root, s)) <==>
      (w.journal[id] in {DbCommitted, CleanupPending} || NewFilesStay(w.files, root, op))
  {
    var f := Reconcile(w, root, id, op).world.files;
    if w.journal[id] in {DbCommitted, CleanupPending} {
      CleanupSafe(w, root, op, before);
      assert f == Cleanup(w, root, op).world.files;
      forall s | s in op.Slots() ensures HasNew(f, root, s) {
        assert Replaced(f, before, root, s);
      }
    } else {
      RollbackOfCommitted(w, root, op, before);
      assert f == Rollback(w, root, op).world.files;
    }
  }

  /** A new cover, staged over nothing. */
  function LostOperation(): CoverOperation {
    CoverOperation(1, [Replacement("cover", None, [1])], [])
  }

  /** A crash right after the commit, a recovery that fails on reading a file, its report, a recovery. */
  function LostCoverEvents(): seq<Event> {
    [ Replacing("op", LostOperation(), [Proceed, Proceed, Proceed, Crash({})]),
      Recovering("op", [Proceed, Proceed, IoError({})]),
      RecordingFailure("op"),
      Recovering("op", []) ]
  }

  function LostWorld(root: string, state: FileOperationState, faults: seq<Fault>): World {
    World(map[Location(root, "cover") := File([1])], map["op" := state], {1}, {"op"}, faults)
  }

  lemma LostCoverCommits(root: string)
    ensures Replace(World(map[], map[], {1}, {}, [Proceed, Proceed, Proceed, Crash({})]), root, "op", LostOperation())
      == Crashed(LostWorld(root, DbCommitted, []))
  {
    var op, s := LostOperation(), LostOperation().entries[0];
    var w := World(map[], map[], {1}, {}, [Proceed, Proceed, Proceed, Crash({})]);
    var created := CreateRow(w, "op");
    assert created == Done(World(map[], map["op" := Prepared], {1}, {}, [Proceed, Proceed, Crash({})]), ());
    var staged := Stage(created.world, root, op);
    assert staged == StageEntry(created.world, root, s);
    assert staged == Done(
      World(map[Location(root, "cover") := File([1])], map["op" := Prepared], {1}, {}, [Proceed, Crash({})]), ());
    var saved := CommitCover(staged.world, "op", 1);
    assert saved == Done(LostWorld(root, DbCommitted, [Crash({})]), ());
    assert VerifyEntries(saved.world, root, op.entries, 0) == Crashed(LostWorld(root, DbCommitted, []));
  }

  lemma LostCoverRecoveryFails(root: string)
    ensures Reconcile(LostWorld(root, DbCommitted, [Proceed, Proceed, IoError({})]), root, "op", LostOperation())
      == Error(LostWorld(root, DbCommitted, []), Io)
  {
    var w := LostWorld(root, DbCommitted, [IoError({})]);
    assert VerifyEntries(w, root, LostOperation().entries, 0) == Error(LostWorld(root, DbCommitted, []), Io);
  }

  lemma LostCoverIsRolledBack(root: string)
    ensures Reconcile(LostWorld(root, Failed, []), root, "op", LostOperation())
      == Done(World(map[], map["op" := Completed], {1}, {"op"}, []), ())
  {
    var w, op := LostWorld(root, Failed, []), LostOperation();
    var s := op.entries[0];
    assert op.Slots() == [s];
    assert RollbackSlot(w, root, s) == Done(World(map[], map["op" := Failed], {1}, {"op"}, []), ());
    assert Rollback(w, root, op) == RollbackSlot(w, root, s);
  }

  function LostStart(): System {
    System(World(map[], map[], {1}, {}, []), map[], {}, map[])
  }

  function LostSystem(root: string, state: FileOperationState, owed: set<string>): System {
    System(LostWorld(root, state, []), map["op" := Record(LostOperation(), map[])], owed, map[])
  }

  lemma LostCoverIsAllowedToStart(root: string)
    ensures Enabled(LostStart(), root, LostCoverEvents()[0])
  {
    assert LostOperation().Slots() == LostOperation().entries;
  }

  lemma LostCoverFirstEvent(root: string)
    ensures Next(LostStart(), root, LostCoverEvents()[0]) == LostSystem(root, DbCommitted, {})
  {
    LostCoverCommits(root);
    var sys := LostSystem(root, DbCommitted, {});
    assert NewlySettled(sys.world, sys.records, map[]) == map[];
  }

  lemma LostCoverSecondEvent(root: string)
    ensures Next(LostSystem(root, DbCommitted, {}), root, LostCoverEvents()[1]) == LostSystem(root, DbCommitted, {"op"})
  {
    LostCoverRecoveryFails(root);
    var sys := LostSystem(root, DbCommitted, {"op"});
    assert NewlySettled(sys.world, sys.records, map[]) == map[];
  }

  /** The hypothesis is needed: this run starts from nothing, commits a new cover, and ends without it. */
  lemma LostCover(root: string)
    ensures var e := LostCoverEvents();
      && Initial(LostStart()) && Enabled(LostStart(), root, e[0])
      && var s1 := Next(LostStart(), root, e[0]);
      && "op" in s1.world.committed && s1.world.files == map[Location(root, "cover") := File([1])]
      && "op" in s1.records
      && var s2 := Next(s1, root, e[1]);
      && Enabled(s2, root, e[2])
      && var s3 := Next(s2, root, e[2]);
      && Enabled(s3, root, e[3])
      && var s4 := Next(s3, root, e[3]);
      && s4.world.journal == map["op" := Completed] && s4.world.files == map[]
  {
    LostCoverIsAllowedToStart(root);
    LostCoverFirstEvent(root);
    LostCoverSecondEvent(root);
    var s2 := LostSystem(root, DbCommitted, {"op"});
    var s3 := Next(s2, root, RecordingFailure("op"));
    assert s3 == LostSystem(root, Failed, {});
    LostCoverIsRolledBack(root);
    var s4 := Next(s3, root, Recovering("op", []));
    assert s4.world == World(map[], map["op" := Completed], {1}, {"op"}, []);
  }
}
