/**
 A managed delete over whole runs of several processes.

 The run follows one operation. Deleting and each recovery happen under the locks of all its roots;
 the journal is updated after recovery has released them, so success and failure reports arrive late
 and in any order, and the state a recovery was dispatched on may be any the row has ever had.
 */
module DeleteRuns {
  import opened Basics
  import opened Storage
  import opened Deletes
  import opened DeleteSafety

  /** How files and rows looked when the delete or a recovery of it first ended well. */
  datatype Settlement = Settlement(files: Files, roms: set<int>)

  datatype System = System(
    world: World,
    started: bool,
    before: Files,
    past: set<FileOperationState>,
    mayComplete: bool,
    mayFail: bool,
    settled: Option<Settlement>)

  datatype Event =
    | Deleting(faults: seq<Fault>)
    | Recovering(listed: FileOperationState, faults: seq<Fault>)
    | RecordingSuccess
    | RecordingFailure
    | Pruning
    | Elsewhere(files: Files, roms: set<int>)

  function Noted(sys: System, id: string): System {
    if id in sys.world.journal then sys.(past := sys.past + {sys.world.journal[id]}) else sys
  }

  /** The states others may have read from a row that a delete has created and left in this one. */
  function StatesUpTo(state: FileOperationState): set<FileOperationState> {
    if state in {CleanupPending, Completed} then {Prepared, DbCommitted, state} else {Prepared, state}
  }

  function Settle(sys: System): System {
    if sys.settled.Some? then sys else sys.(settled := Some(Settlement(sys.world.files, sys.world.roms)))
  }

  ghost predicate Enabled(sys: System, id: string, op: DeleteOperation, e: Event) {
    match e
    case Deleting(_) =>
      // Whoever removes a row under the locks also removes its files, so files are left only with rows.
      !sys.started && id !in sys.world.journal &&
      (op.entries != [] ==> exists rom :: rom in op.roms && rom in sys.world.roms) &&
      forall i :: 0 <= i < |op.entries| ==>
        op.entries[i].original in sys.world.files && op.entries[i].trash !in sys.world.files &&
        Kind(sys.world.files[op.entries[i].original], op.entries[i])
    case Recovering(listed, _) => listed in sys.past && listed != Completed
    case RecordingSuccess => sys.mayComplete
    case RecordingFailure => sys.mayFail
    case Pruning => id in sys.world.journal && sys.world.journal[id] == Completed
    case Elsewhere(files, roms) =>
      // Trash paths carry the operation id, ROM ids are not reused, and until the operation has
      // settled nobody else touches its files or takes the last of its rows.
      (sys.started ==> NoTrash(sys.world.files, op.entries) ==> NoTrash(files, op.entries)) &&
      (sys.started && sys.settled.None? ==>
        (forall i, at :: 0 <= i < |op.entries| && at in Footprint(op.entries[i]) ==>
          Same(sys.world.files, files, at)) &&
        (forall rom :: rom in op.roms && rom in roms ==> rom in sys.world.roms) &&
        ((exists rom :: rom in op.roms && rom in sys.world.roms) ==> exists rom :: rom in op.roms && rom in roms))
  }

  function Next(sys: System, id: string, op: DeleteOperation, e: Event): System {
    match e
    case Deleting(faults) =>
      var r := Delete(sys.world.(faults := faults), id, op);
      var next := Noted(sys.(world := r.world, started := true, before := sys.world.files,
                             past := if id in r.world.journal then StatesUpTo(r.world.journal[id]) else {}), id);
      if id in r.world.journal && r.world.journal[id] == Completed then Settle(next) else next
    case Recovering(listed, faults) =>
      var r := Recover(sys.world.(faults := faults), listed, op);
      var next := sys.(world := r.world);
      if r.Done? then Settle(next.(mayComplete := true))
      else next.(mayFail := sys.mayFail || r.Error?)
    case RecordingSuccess => Noted(sys.(world := sys.world.(journal := Written(sys.world.journal, id, Completed))), id)
    case RecordingFailure => Noted(sys.(world := sys.world.(journal := Written(sys.world.journal, id, Failed))), id)
    case Pruning => sys.(world := sys.world.(journal := sys.world.journal - {id}))
    case Elsewhere(files, roms) => sys.(world := sys.world.(files := files, roms := roms))
  }

  ghost predicate Allowed(sys: System, id: string, op: DeleteOperation, events: seq<Event>)
    decreases |events|
  {
    events == [] ||
    (Enabled(sys, id, op, events[0]) && Allowed(Next(sys, id, op, events[0]), id, op, events[1..]))
  }

  ghost function After(sys: System, id: string, op: DeleteOperation, events: seq<Event>): System
    requires Allowed(sys, id, op, events)
    decreases |events|
  {
    if events == [] then sys else After(Next(sys, id, op, events[0]), id, op, events[1..])
  }

  // ---------- one critical section ----------

  ghost predicate SomeRow(roms: set<int>, op: DeleteOperation) {
    exists rom :: rom in op.roms && rom in roms
  }

  /** While a row is left everything can be put back; afterwards only trash remains. */
  ghost predicate Open(w: World, op: DeleteOperation, before: Files) {
    if SomeRow(w.roms, op) then AllMovable(w.files, before, op.entries) else AllLeaving(w.files, op.entries)
  }

  ghost predicate AllOrNothing(files: Files, roms: set<int>, op: DeleteOperation, before: Files) {
    ((forall rom :: rom in op.roms ==> rom in roms) && AllKept(files, before, op.entries)) ||
    (!SomeRow(roms, op) && AllGone(files, op.entries))
  }

  /** Where a delete leaves its own row, given where it leaves the ROM rows and the files. */
  ghost predicate Ended(w: World, id: string, op: DeleteOperation, before: Files) {
    Open(w, op, before) &&
    (id in w.journal && w.journal[id] in {DbCommitted, CleanupPending, Completed} ==> !SomeRow(w.roms, op)) &&
    (id in w.journal && w.journal[id] == Completed ==> AllGone(w.files, op.entries))
  }

  lemma FinishDeleteSafe(w: World, id: string, op: DeleteOperation, before: Files)
    requires Separate(op.entries) && !SomeRow(w.roms, op) && AllLeaving(w.files, op.entries)
    requires id in w.journal && w.journal[id] == DbCommitted
    ensures Ended(FinishDelete(w, id, op.entries).world, id, op, before)
  {
    DropAllSafe(w, op.entries, 0, true);
  }

  lemma CommitRowsSafe(w: World, id: string, op: DeleteOperation, before: Files)
    requires Separate(op.entries) && op.roms != [] && (op.entries != [] ==> SomeRow(w.roms, op))
    requires id in w.journal && w.journal[id] == Prepared
    requires forall i :: 0 <= i < |op.entries| ==> Trashed(w.files, before, op.entries[i])
    ensures Ended(CommitRows(w, id, op).world, id, op, before)
  {
    var r := CommitDelete(w, id, op.RomSet());
    if r.Error? {
      RestoreAndFailSafe(r.world, id, op.entries, |op.entries|, r.reason, before);
    } else if r.Done? {
      assert r.world.roms == w.roms - op.RomSet();
      forall i | 0 <= i < |op.entries| ensures Leaving(r.world.files, op.entries[i]) {
        assert Trashed(w.files, before, op.entries[i]);
      }
      FinishDeleteSafe(r.world, id, op, before);
    }
  }

  lemma DeleteSafe(w: World, id: string, op: DeleteOperation)
    requires Separate(op.entries) && op.roms != [] && id !in w.journal && (op.entries != [] ==> SomeRow(w.roms, op))
    requires AllKept(w.files, w.files, op.entries)
    ensures Ended(Delete(w, id, op).world, id, op, w.files)
  {
    var r1 := CreateRow(w, id);
    if r1.Done? {
      MoveEntriesSafe(r1.world, id, op.entries, 0, w.files);
      var r2 := MoveEntries(r1.world, id, op.entries, 0);
      if r2.Done? {
        CommitRowsSafe(r2.world, id, op, w.files);
      }
    }
  }

  lemma RecoverSafe(w: World, listed: FileOperationState, op: DeleteOperation, before: Files)
    requires Separate(op.entries) && op.roms != [] && Open(w, op, before)
    requires listed !in {Prepared, Failed} ==> !SomeRow(w.roms, op)
    ensures var r := Recover(w, listed, op);
      && SameRows(w, r.world) && Open(r.world, op, before)
      && (r.Done? ==> AllOrNothing(r.world.files, r.world.roms, op, before))
  {
    if listed in {Prepared, Failed} {
      CountRowsMeans(w, op.roms, 0, 0);
      var r := CountRows(w, op.roms, 0, 0);
      if r.Done? {
        if r.value == 0 {
          DropTrashSafe(r.world, op.entries, 0);
        } else if r.value == |op.roms| {
          assert op.roms[0] in w.roms;
          MovableIsHomed(w.files, before, op.entries);
          PutAllBackSafe(r.world, op.entries, 0, before);
          HomedStaysMovable(w.files, PutAllBack(r.world, op.entries, 0).world.files, before, op.entries);
        }
      }
    } else {
      DropTrashSafe(w, op.entries, 0);
    }
  }

  // ---------- whole runs ----------

  ghost predicate Inv(sys: System, id: string, op: DeleteOperation) {
    && (!sys.started ==> id !in sys.world.journal && sys.past == {} && sys.settled.None?)
    && (sys.settled.None? ==> !sys.mayComplete)
    && (id in sys.world.journal ==> sys.world.journal[id] in sys.past)
    && (Completed in sys.past ==> sys.settled.Some?)
    && (sys.started && sys.settled.None? ==>
          Open(sys.world, op, sys.before) &&
          (DbCommitted in sys.past || CleanupPending in sys.past ==> !SomeRow(sys.world.roms, op)))
    && (sys.settled.Some? ==>
          sys.started && NoTrash(sys.world.files, op.entries) &&
          AllOrNothing(sys.settled.value.files, sys.settled.value.roms, op, sys.before))
  }

  ghost predicate Initial(sys: System, id: string) {
    !sys.started && id !in sys.world.journal && sys.past == {} && !sys.mayComplete && !sys.mayFail && sys.settled.None?
  }

  lemma AllOrNothingHasNoTrash(files: Files, roms: set<int>, op: DeleteOperation, before: Files)
    requires AllOrNothing(files, roms, op, before)
    ensures NoTrash(files, op.entries)
  {
  }

  lemma RecoveringKeepsInv(sys: System, id: string, op: DeleteOperation, e: Event)
    requires Separate(op.entries) && op.roms != []
    requires e.Recovering? && Inv(sys, id, op) && Enabled(sys, id, op, e)
    ensures Inv(Next(sys, id, op, e), id, op)
  {
    var w := sys.world.(faults := e.faults);
    var r := Recover(w, e.listed, op);
    if sys.settled.Some? {
      RecoverIdle(w, e.listed, op);
    } else {
      RecoverSafe(w, e.listed, op, sys.before);
      if r.Done? {
        AllOrNothingHasNoTrash(r.world.files, r.world.roms, op, sys.before);
      }
    }
  }

  lemma ElsewhereKeepsInv(sys: System, id: string, op: DeleteOperation, e: Event)
    requires e.Elsewhere? && Inv(sys, id, op) && Enabled(sys, id, op, e)
    ensures Inv(Next(sys, id, op, e), id, op)
  {
    if sys.started && sys.settled.None? {
      assert SomeRow(sys.world.roms, op) <==> SomeRow(e.roms, op);
      forall i | 0 <= i < |op.entries|
        ensures Movable(sys.world.files, sys.before, op.entries[i]) == Movable(e.files, sys.before, op.entries[i])
        ensures Leaving(sys.world.files, op.entries[i]) == Leaving(e.files, op.entries[i])
      {
        var a := op.entries[i];
        assert a.original in Footprint(a) && a.trash in Footprint(a);
        assert Same(sys.world.files, e.files, a.original) && Same(sys.world.files, e.files, a.trash);
      }
    }
  }

  lemma DeletingKeepsInv(sys: System, id: string, op: DeleteOperation, e: Event)
    requires Separate(op.entries) && op.roms != []
    requires e.Deleting? && Inv(sys, id, op) && Enabled(sys, id, op, e)
    ensures Inv(Next(sys, id, op, e), id, op)
  {
    var w := sys.world.(faults := e.faults);
    DeleteSafe(w, id, op);
    var w' := Delete(w, id, op).world;
    if id in w'.journal {
      EndedStates(w', id, op, sys.world.files);
      if w'.journal[id] == Completed {
        CompletedIsSettled(w', id, op, sys.world.files);
      }
    }
  }

  lemma EndedStates(w: World, id: string, op: DeleteOperation, before: Files)
    requires Ended(w, id, op, before) && id in w.journal
    ensures var past := StatesUpTo(w.journal[id]);
      && w.journal[id] in past && (Completed in past <==> w.journal[id] == Completed)
      && (DbCommitted in past || CleanupPending in past ==> !SomeRow(w.roms, op))
  {
  }

  lemma CompletedIsSettled(w: World, id: string, op: DeleteOperation, before: Files)
    requires Ended(w, id, op, before) && id in w.journal && w.journal[id] == Completed
    ensures NoTrash(w.files, op.entries) && AllOrNothing(w.files, w.roms, op, before)
  {
  }

  lemma StepKeepsInv(sys: System, id: string, op: DeleteOperation, e: Event)
    requires Separate(op.entries) && op.roms != []
    requires Inv(sys, id, op) && Enabled(sys, id, op, e)
    ensures Inv(Next(sys, id, op, e), id, op)
  {
    match e
    case Deleting(_) => DeletingKeepsInv(sys, id, op, e);
    case Recovering(_, _) => RecoveringKeepsInv(sys, id, op, e);
    case Elsewhere(_, _) => ElsewhereKeepsInv(sys, id, op, e);
    case _ =>
  }

  lemma {:induction false} RunKeepsInv(sys: System, id: string, op: DeleteOperation, events: seq<Event>)
    requires Separate(op.entries) && op.roms != []
    requires Inv(sys, id, op) && Allowed(sys, id, op, events)
    ensures Inv(After(sys, id, op, events), id, op)
    decreases |events|
  {
    if events != [] {
      StepKeepsInv(sys, id, op, events[0]);
      RunKeepsInv(Next(sys, id, op, events[0]), id, op, events[1..]);
    }
  }

  /**
   A delete of at least one ROM is all-or-nothing in every run with crashes, failed attempts that
   rewrite the row to Failed, stale recoveries and late reports: once its row is Completed it has
   settled, and it settled either with every row and every original back and no trash, or with every
   row, original and trash entry gone; later recoveries of it change no file.
   */
  lemma DeletesAreAllOrNothing(sys: System, id: string, op: DeleteOperation, events: seq<Event>,
                               listed: FileOperationState, faults: seq<Fault>)
    requires Separate(op.entries) && op.roms != []
    requires Initial(sys, id) && Allowed(sys, id, op, events)
    ensures var end := After(sys, id, op, events);
      && (id in end.world.journal && end.world.journal[id] == Completed ==> end.settled.Some?)
      && (end.settled.Some? ==>
            AllOrNothing(end.settled.value.files, end.settled.value.roms, op, end.before) &&
            Recover(end.world.(faults := faults), listed, op).world.files == end.world.files)
  {
    RunKeepsInv(sys, id, op, events);
    var end := After(sys, id, op, events);
    if end.settled.Some? {
      RecoverIdle(end.world.(faults := faults), listed, op);
    }
  }

  lemma RowsOneByOne(roms: set<int>, op: DeleteOperation)
    ensures op.RomSet() <= roms <==> forall i :: 0 <= i < |op.roms| ==> op.roms[i] in roms
  {
    forall i | 0 <= i < |op.roms| ensures op.roms[i] in op.RomSet() {
      assert op.roms[i] in op.roms;
    }
  }

  lemma RecoverCompletes(w: World, listed: FileOperationState, op: DeleteOperation, before: Files)
    requires Separate(op.entries) && op.roms != [] && Open(w, op, before) && w.faults == []
    requires SomeRow(w.roms, op) ==> listed in {Prepared, Failed} && op.RomSet() <= w.roms
    ensures Recover(w, listed, op).Done?
  {
    CountRowsMeans(w, op.roms, 0, 0);
    CountRowsCompletes(w, op.roms, 0, 0);
    if SomeRow(w.roms, op) {
      RowsOneByOne(w.roms, op);
      assert op.roms[0] in w.roms;
      PutAllBackCompletes(w, op.entries, 0, before);
    } else {
      forall i | 0 <= i < |op.roms| ensures op.roms[i] !in w.roms {
        var rom := op.roms[i];
        assert rom in op.roms;
      }
      DropTrashCompletes(w, op.entries, 0);
    }
  }

  /** Before it has settled, a row in a state past the commit means that no ROM row is left. */
  lemma UnsettledRow(sys: System, id: string, op: DeleteOperation)
    requires Inv(sys, id, op) && sys.settled.None? && id in sys.world.journal
    ensures sys.world.journal[id] != Completed
    ensures sys.world.journal[id] !in {Prepared, Failed} ==> !SomeRow(sys.world.roms, op)
  {
    var state := sys.world.journal[id];
    assert state in sys.past && Completed !in sys.past;
    assert state in {DbCommitted, CleanupPending} ==> DbCommitted in sys.past || CleanupPending in sys.past;
  }

  /**
   Recovery makes progress: in every reachable state in which the delete has not settled, recovering
   it undisturbed from its current row ends well, and so settles it all-or-nothing, exactly when its
   rows are not a partial set.
   */
  lemma RecoveryCompletes(sys: System, id: string, op: DeleteOperation, events: seq<Event>)
    requires Separate(op.entries) && op.roms != []
    requires Initial(sys, id) && Allowed(sys, id, op, events)
    requires After(sys, id, op, events).started && After(sys, id, op, events).settled.None?
    requires id in After(sys, id, op, events).world.journal
    ensures var end := After(sys, id, op, events);
      var r := Recover(end.world.(faults := []), end.world.journal[id], op);
      && (r.Done? <==> !SomeRow(end.world.roms, op) || op.RomSet() <= end.world.roms)
      && (r.Done? ==> AllOrNothing(r.world.files, r.world.roms, op, end.before))
  {
    RunKeepsInv(sys, id, op, events);
    var end := After(sys, id, op, events);
    var w, listed := end.world.(faults := []), end.world.journal[id];
    UnsettledRow(end, id, op);
    RecoverSafe(w, listed, op, end.before);
    if !SomeRow(w.roms, op) || op.RomSet() <= w.roms {
      RecoverCompletes(w, listed, op, end.before);
    } else {
      PartialRowsAreRefused(w, listed, op);
    }
  }

  lemma PartialRowsAreRefused(w: World, listed: FileOperationState, op: DeleteOperation)
    requires SomeRow(w.roms, op) && !(op.RomSet() <= w.roms) && listed in {Prepared, Failed}
    ensures !Recover(w, listed, op).Done?
  {
    CountRowsMeans(w, op.roms, 0, 0);
    RowsOneByOne(w.roms, op);
    var i :| 0 <= i < |op.roms| && op.roms[i] !in w.roms;
    var there :| there in op.roms && there in w.roms;
    var j :| 0 <= j < |op.roms| && op.roms[j] == there;
  }

  // ---------- the limit: deletes that list no ROM ----------

  /**
   A committed delete without ROM ids has no rows to decide from. Recovering it from a list that
   still says Prepared, or after a failed attempt, leaves every original gone exactly when its first
   trash entry is no longer there; otherwise it brings deleted files back.
   */
  lemma WhenSidecarsStayDeleted(w: World, listed: FileOperationState, op: DeleteOperation)
    requires Separate(op.entries) && AllLeaving(w.files, op.entries) && op.roms == [] && w.faults == []
    requires listed in {Prepared, Failed} && op.entries != []
    ensures var f := Recover(w, listed, op).world.files;
      (forall i :: 0 <= i < |op.entries| ==> op.entries[i].original !in f) <==> op.entries[0].trash !in w.files
  {
    var a := op.entries[0];
    assert Leaving(w.files, a);
    if a.trash in w.files {
      var r := PutBack(w, a);
      assert r.Done? && a.original in r.world.files;
      PutAllBackKeeps(r.world, op.entries, 1, 0);
    }
  }

  /** A sidecar on its way to trash: its delete lists no ROM, and the process dies after the commit. */
  function LostDelete(): DeleteOperation {
    DeleteOperation([], [Artifact(Location("root", "a"), Location("root", "t"), false)])
  }

  function SidecarAt(relative: string, journal: map<string, FileOperationState>, committed: set<string>): World {
    World(map[Location("root", relative) := File([1])], journal, {}, committed, [])
  }

  lemma SidecarIsDeleted()
    ensures Delete(SidecarAt("a", map[], {}).(faults := [Proceed, Proceed, Proceed, Crash({})]), "op", LostDelete())
      == Crashed(SidecarAt("t", map["op" := DbCommitted], {"op"}))
  {
    var op, a := LostDelete(), LostDelete().entries[0];
    var w := SidecarAt("a", map["op" := Prepared], {}).(faults := [Proceed, Proceed, Crash({})]);
    assert CreateRow(SidecarAt("a", map[], {}).(faults := [Proceed, Proceed, Proceed, Crash({})]), "op") == Done(w, ());
    var moved := SidecarAt("t", map["op" := Prepared], {}).(faults := [Proceed, Crash({})]);
    assert MoveArtifact(w, a, a.original, a.trash) == Done(moved, ());
    assert MoveEntries(moved, "op", op.entries, 1) == Done(moved, ());
    assert MoveEntries(w, "op", op.entries, 0) == Done(moved, ());
    var committed := SidecarAt("t", map["op" := DbCommitted], {"op"}).(faults := [Crash({})]);
    assert moved.roms - op.RomSet() == {};
    assert CommitDelete(moved, "op", op.RomSet()) == Done(committed, ());
    assert DropAll(committed, op.entries, 0, true) == Crashed(SidecarAt("t", map["op" := DbCommitted], {"op"}));
  }

  /**
   The limit is reached: this delete commits and dies, and a recovery that was listed while the row was
   still prepared ends without error with the deleted file back.
   */
  lemma SidecarComesBack()
    ensures var w := SidecarAt("a", map[], {});
      var r := Delete(w.(faults := [Proceed, Proceed, Proceed, Crash({})]), "op", LostDelete());
      && r == Crashed(SidecarAt("t", map["op" := DbCommitted], {"op"}))
      && Recover(r.world, Prepared, LostDelete()) == Done(SidecarAt("a", map["op" := DbCommitted], {"op"}), ())
  {
    SidecarIsDeleted();
    var op, w := LostDelete(), SidecarAt("t", map["op" := DbCommitted], {"op"});
    var back := SidecarAt("a", map["op" := DbCommitted], {"op"});
    assert PutBack(w, op.entries[0]) == Done(back, ());
    assert PutAllBack(back, op.entries, 1) == Done(back, ());
    assert PutAllBack(w, op.entries, 0) == Done(back, ());
  }

  lemma MoveArtifactTouches(w: World, a: Artifact)
    ensures OnlyTouches(w, MoveArtifact(w, a, a.trash, a.original).world, a)
  {
    if a.directory {
      assert OnlyTouches(w, MoveManagedDirectory(w, a.trash, a.original).world, a);
    } else {
      assert OnlyTouches(w, MoveManaged(w, a.trash, a.original).world, a);
    }
  }

  lemma PutBackTouches(w: World, a: Artifact)
    ensures OnlyTouches(w, PutBack(w, a).world, a)
  {
    var r1 := Exists(w, a.trash);
    if r1.Done? {
      var r2 := Exists(r1.world, a.original);
      if r2.Done? && r1.value && !r2.value {
        assert r2.world == w.(faults := r2.world.faults);
        MoveArtifactTouches(r2.world, a);
      }
    }
  }

  lemma PutBackKeeps(w: World, entries: seq<Artifact>, i: nat, j: nat)
    requires i < |entries| && j < |entries| && i != j && Separate(entries) && entries[j].original in w.files
    ensures entries[j].original in PutBack(w, entries[i]).world.files
  {
    PutBackTouches(w, entries[i]);
    assert entries[j].original in Footprint(entries[j]);
    assert Same(w.files, PutBack(w, entries[i]).world.files, entries[j].original);
  }

  lemma {:induction false} PutAllBackKeeps(w: World, entries: seq<Artifact>, i: nat, j: nat)
    requires j < i <= |entries| && Separate(entries) && entries[j].original in w.files
    ensures entries[j].original in PutAllBack(w, entries, i).world.files
    decreases |entries| - i
  {
    if i < |entries| {
      PutBackKeeps(w, entries, i, j);
      var r := PutBack(w, entries[i]);
      if r.Done? {
        PutAllBackKeeps(r.world, entries, i + 1, j);
      }
    }
  }
}
