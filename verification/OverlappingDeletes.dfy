/**
 Several managed deletes at once: retried, repeated and overlapping ones, with their recoveries, in
 any order. They run under the same locks, so critical sections follow each other; but a delete can
 be half done or half recovered while others move the same files or remove the same rows.

 `owner` tells to which ROM the file at a location belongs.
 */
module OverlappingDeletes {
  import opened Basics
  import opened Storage
  import opened Deletes
  import opened DeleteSafety
  import DeleteRuns

  // ---------- one critical section ----------

  ghost predicate OtherRows(w: World, w': World, id: string) {
    forall other :: other != id ==>
      (other in w.journal <==> other in w'.journal) && (other in w.journal ==> w'.journal[other] == w.journal[other])
  }

  /** The delete has not committed: its rows are untouched and each artifact is in one of its places. */
  ghost predicate Undone(w: World, w': World, id: string, op: DeleteOperation, before: Files) {
    w'.roms == w.roms && AllMovable(w'.files, before, op.entries) &&
    (id in w'.journal ==> w'.journal[id] in {Prepared, Failed})
  }

  /** It has committed: all its rows are gone, and so are the originals. */
  ghost predicate Committed(w: World, w': World, id: string, op: DeleteOperation) {
    op.RomSet() <= w.roms && w'.roms == w.roms - op.RomSet() && AllLeaving(w'.files, op.entries) &&
    id in w'.journal && w'.journal[id] in {DbCommitted, CleanupPending, Completed} &&
    (w'.journal[id] == Completed ==> AllGone(w'.files, op.entries))
  }

  lemma FinishOutcome(w: World, id: string, op: DeleteOperation)
    requires Separate(op.entries) && AllLeaving(w.files, op.entries)
    requires id in w.journal && w.journal[id] == DbCommitted
    ensures var w' := FinishDelete(w, id, op.entries).world;
      && OnlyFiles(w.files, w'.files, op.entries) && OtherRows(w, w', id) && w'.roms == w.roms
      && AllLeaving(w'.files, op.entries)
      && id in w'.journal && w'.journal[id] in {DbCommitted, CleanupPending, Completed}
      && (w'.journal[id] == Completed ==> AllGone(w'.files, op.entries))
  {
    DropAllSafe(w, op.entries, 0, true);
  }

  lemma CommitOutcome(w: World, id: string, op: DeleteOperation, before: Files)
    requires Separate(op.entries) && id in w.journal && w.journal[id] == Prepared
    requires forall i :: 0 <= i < |op.entries| ==> Trashed(w.files, before, op.entries[i])
    ensures var w' := CommitRows(w, id, op).world;
      && OnlyFiles(w.files, w'.files, op.entries) && OtherRows(w, w', id)
      && (Undone(w, w', id, op, before) || Committed(w, w', id, op))
  {
    var r := CommitDelete(w, id, op.RomSet());
    if r.Error? {
      RestoreAndFailSafe(r.world, id, op.entries, |op.entries|, r.reason, before);
    } else if r.Done? {
      forall i | 0 <= i < |op.entries| ensures Leaving(r.world.files, op.entries[i]) {
        assert Trashed(w.files, before, op.entries[i]);
      }
      FinishOutcome(r.world, id, op);
    }
  }

  lemma DeleteOutcome(w: World, id: string, op: DeleteOperation)
    requires Separate(op.entries) && id !in w.journal && AllKept(w.files, w.files, op.entries)
    ensures var w' := Delete(w, id, op).world;
      && OnlyFiles(w.files, w'.files, op.entries) && OtherRows(w, w', id)
      && (Undone(w, w', id, op, w.files) || Committed(w, w', id, op))
  {
    var r1 := CreateRow(w, id);
    if r1.Done? {
      MoveEntriesSafe(r1.world, id, op.entries, 0, w.files);
      var r2 := MoveEntries(r1.world, id, op.entries, 0);
      if r2.Done? {
        CommitOutcome(r2.world, id, op, w.files);
        OnlyFilesTransitive(w.files, r2.world.files, Delete(w, id, op).world.files, op.entries);
      }
    }
  }

  /** What a recovery does, whatever other deletes have taken meanwhile. */
  ghost predicate RecoversWell(w: World, r: Run<()>, op: DeleteOperation, before: Files) {
    SameRows(w, r.world) && OnlyFiles(w.files, r.world.files, op.entries) &&
    if op.RomSet() <= w.roms then
      AllHomed(r.world.files, before, op.entries) && SameHeld(w.files, r.world.files, op.entries) &&
      (r.Done? ==> AllKept(r.world.files, before, op.entries))
    else if DeleteRuns.SomeRow(w.roms, op) then r.world.files == w.files && !r.Done?
    else AllLeaving(r.world.files, op.entries) && (r.Done? ==> AllGone(r.world.files, op.entries))
  }

  lemma RecoverOutcome(w: World, listed: FileOperationState, op: DeleteOperation, before: Files)
    requires Separate(op.entries) && op.roms != []
    requires op.RomSet() <= w.roms ==> AllHomed(w.files, before, op.entries)
    requires !DeleteRuns.SomeRow(w.roms, op) ==> AllLeaving(w.files, op.entries)
    requires listed !in {Prepared, Failed} ==> !DeleteRuns.SomeRow(w.roms, op)
    ensures RecoversWell(w, Recover(w, listed, op), op, before)
  {
    DeleteRuns.RowsOneByOne(w.roms, op);
    AllRowsAreSome(w, op);
    if listed in {Prepared, Failed} {
      CountRowsMeans(w, op.roms, 0, 0);
      var r := CountRows(w, op.roms, 0, 0);
      if r.Done? {
        if r.value == 0 {
          NoRowLeft(w, op);
          DropTrashSafe(r.world, op.entries, 0);
        } else if r.value == |op.roms| {
          PutAllBackSafe(r.world, op.entries, 0, before);
        } else {
          SomeRowLeft(w, op);
        }
      }
    } else {
      DropTrashSafe(w, op.entries, 0);
    }
  }

  lemma AllRowsAreSome(w: World, op: DeleteOperation)
    requires op.roms != []
    ensures op.RomSet() <= w.roms ==> DeleteRuns.SomeRow(w.roms, op)
  {
    var rom := op.roms[0];
    assert rom in op.roms && rom in op.RomSet();
  }

  lemma SomeRowLeft(w: World, op: DeleteOperation)
    requires exists j :: 0 <= j < |op.roms| && op.roms[j] in w.roms
    ensures DeleteRuns.SomeRow(w.roms, op)
  {
    var j :| 0 <= j < |op.roms| && op.roms[j] in w.roms;
    var rom := op.roms[j];
    assert rom in op.roms;
  }

  lemma NoRowLeft(w: World, op: DeleteOperation)
    requires forall j :: 0 <= j < |op.roms| ==> op.roms[j] !in w.roms
    ensures !DeleteRuns.SomeRow(w.roms, op)
  {
    forall rom | rom in op.roms ensures rom !in w.roms {
      var j :| 0 <= j < |op.roms| && op.roms[j] == rom;
    }
  }

  // ---------- what all pending deletes agree on ----------

  type Owner = Location -> int

  /** While its row is there a file has one home; afterwards only trash is left of it. */
  ghost predicate FileOk(w: World, contents: Files, owner: Owner, a: Artifact) {
    if owner(a.original) in w.roms then Homed(w.files, contents, a) else Leaving(w.files, a)
  }

  ghost predicate NotBoth(w: World, owner: Owner, a: Artifact, b: Artifact) {
    a.original == b.original && owner(a.original) in w.roms ==> !(a.trash in w.files && b.trash in w.files)
  }

  /** Some pending delete has the file, in place or in its trash. */
  ghost predicate Somewhere(f: Files, pending: set<Artifact>, original: Location) {
    exists b :: b in pending && b.original == original && HeldHere(f, b)
  }

  ghost predicate FilesOk(w: World, contents: Files, owner: Owner, pending: set<Artifact>) {
    (forall a :: a in pending ==> FileOk(w, contents, owner, a)) &&
    (forall a :: a in pending && owner(a.original) in w.roms ==> Somewhere(w.files, pending, a.original)) &&
    (forall a, b :: a in pending && b in pending && a != b ==> NotBoth(w, owner, a, b))
  }

  /** Trash is private: it is neither the original nor the trash of another artifact. */
  ghost predicate Apart(pending: set<Artifact>) {
    (forall a :: a in pending ==> a.original != a.trash) &&
    (forall a, b :: a in pending && b in pending && a != b ==> a.trash !in Footprint(b))
  }

  ghost predicate Among(entries: seq<Artifact>, pending: set<Artifact>) {
    forall a :: a in entries ==> a in pending
  }

  lemma PrivateTrash(f: Files, g: Files, entries: seq<Artifact>, pending: set<Artifact>, b: Artifact)
    requires Apart(pending) && Among(entries, pending) && b in pending && b !in entries && OnlyFiles(f, g, entries)
    ensures Same(f, g, b.trash)
  {
    assert b.trash !in Area(entries);
  }

  lemma OtherOriginal(f: Files, g: Files, entries: seq<Artifact>, pending: set<Artifact>, b: Artifact)
    requires Apart(pending) && Among(entries, pending) && b in pending && b !in entries && OnlyFiles(f, g, entries)
    requires forall a :: a in entries ==> a.original != b.original
    ensures Same(f, g, b.original)
  {
    forall a | a in entries ensures b.original !in Footprint(a) {
      assert a.trash !in Footprint(b) && b.original in Footprint(b);
    }
    assert b.original !in Area(entries);
  }

  /** A delete that moves its files between its own places, none of them past its row's end. */
  ghost predicate Shuffles(w: World, w': World, contents: Files, owner: Owner, entries: seq<Artifact>) {
    w'.roms == w.roms && OnlyFiles(w.files, w'.files, entries) &&
    forall a :: a in entries ==>
      owner(a.original) in w.roms && Homed(w'.files, contents, a) && (HeldHere(w.files, a) <==> HeldHere(w'.files, a))
  }

  lemma ShuffleKeepsOne(w: World, w': World, contents: Files, owner: Owner, pending: set<Artifact>,
                        entries: seq<Artifact>, b: Artifact)
    requires Apart(pending) && Among(entries, pending) && FilesOk(w, contents, owner, pending)
    requires Shuffles(w, w', contents, owner, entries) && b in pending && b !in entries
    ensures FileOk(w', contents, owner, b)
  {
    PrivateTrash(w.files, w'.files, entries, pending, b);
    if a :| a in entries && a.original == b.original {
      assert FileOk(w, contents, owner, a) && FileOk(w, contents, owner, b) && NotBoth(w, owner, a, b);
    } else {
      OtherOriginal(w.files, w'.files, entries, pending, b);
      assert FileOk(w, contents, owner, b);
    }
  }

  lemma ShuffleKeepsApart(w: World, w': World, contents: Files, owner: Owner, pending: set<Artifact>,
                          entries: seq<Artifact>, a: Artifact, b: Artifact)
    requires Apart(pending) && Among(entries, pending) && FilesOk(w, contents, owner, pending)
    requires Shuffles(w, w', contents, owner, entries) && a in pending && b in pending && a != b && b !in entries
    ensures NotBoth(w', owner, a, b)
  {
    PrivateTrash(w.files, w'.files, entries, pending, b);
    assert FileOk(w, contents, owner, a) && FileOk(w, contents, owner, b) && NotBoth(w, owner, a, b);
    if a !in entries {
      PrivateTrash(w.files, w'.files, entries, pending, a);
    }
  }

  lemma ShuffleLosesNothing(w: World, w': World, contents: Files, owner: Owner, pending: set<Artifact>,
                            entries: seq<Artifact>, original: Location)
    requires Apart(pending) && Among(entries, pending) && Shuffles(w, w', contents, owner, entries)
    requires Somewhere(w.files, pending, original)
    ensures Somewhere(w'.files, pending, original)
  {
    var b :| b in pending && b.original == original && HeldHere(w.files, b);
    if b !in entries {
      PrivateTrash(w.files, w'.files, entries, pending, b);
      if a :| a in entries && a.original == original {
        if b.original in w.files {
          assert HeldHere(w.files, a) && HeldHere(w'.files, a) && a in pending;
        }
      } else {
        OtherOriginal(w.files, w'.files, entries, pending, b);
      }
    }
  }

  lemma ShuffleKeeps(w: World, w': World, contents: Files, owner: Owner, pending: set<Artifact>, entries: seq<Artifact>)
    requires Apart(pending) && Among(entries, pending) && FilesOk(w, contents, owner, pending)
    requires Separate(entries) && Shuffles(w, w', contents, owner, entries)
    ensures FilesOk(w', contents, owner, pending)
  {
    forall b | b in pending ensures FileOk(w', contents, owner, b) {
      if b !in entries {
        ShuffleKeepsOne(w, w', contents, owner, pending, entries, b);
      }
    }
    forall a | a in pending && owner(a.original) in w'.roms ensures Somewhere(w'.files, pending, a.original) {
      ShuffleLosesNothing(w, w', contents, owner, pending, entries, a.original);
    }
    forall a, b | a in pending && b in pending && a != b ensures NotBoth(w', owner, a, b) {
      if b !in entries {
        ShuffleKeepsApart(w, w', contents, owner, pending, entries, a, b);
      } else if a !in entries {
        ShuffleKeepsApart(w, w', contents, owner, pending, entries, b, a);
      } else {
        DifferentOriginals(entries, a, b);
      }
    }
  }

  lemma DifferentOriginals(entries: seq<Artifact>, a: Artifact, b: Artifact)
    requires Separate(entries) && a in entries && b in entries && a != b
    ensures a.original != b.original
  {
    var i :| 0 <= i < |entries| && entries[i] == a;
    var j :| 0 <= j < |entries| && entries[j] == b;
    assert Footprint(entries[i]) !! Footprint(entries[j]);
    assert a.original in Footprint(a) && b.original in Footprint(b);
  }

  /** Files of other ROMs are not lost when a delete works on files whose rows are gone. */
  lemma OthersLoseNothing(w: World, w': World, owner: Owner, pending: set<Artifact>, entries: seq<Artifact>,
                          original: Location)
    requires Apart(pending) && Among(entries, pending) && OnlyFiles(w.files, w'.files, entries)
    requires forall a :: a in entries ==> owner(a.original) != owner(original)
    requires Somewhere(w.files, pending, original)
    ensures Somewhere(w'.files, pending, original)
  {
    var b :| b in pending && b.original == original && HeldHere(w.files, b);
    PrivateTrash(w.files, w'.files, entries, pending, b);
    OtherOriginal(w.files, w'.files, entries, pending, b);
  }

  /** A delete without rows that drops its trash. */
  lemma DropKeeps(w: World, w': World, contents: Files, owner: Owner, pending: set<Artifact>, entries: seq<Artifact>)
    requires Apart(pending) && Among(entries, pending) && FilesOk(w, contents, owner, pending)
    requires w'.roms == w.roms && OnlyFiles(w.files, w'.files, entries)
    requires forall a :: a in entries ==> owner(a.original) !in w.roms && Leaving(w'.files, a)
    ensures FilesOk(w', contents, owner, pending)
  {
    forall b | b in pending ensures FileOk(w', contents, owner, b) {
      if b !in entries {
        PrivateTrash(w.files, w'.files, entries, pending, b);
        assert FileOk(w, contents, owner, b);
        if a :| a in entries && a.original == b.original {
          assert Leaving(w'.files, a);
        } else {
          OtherOriginal(w.files, w'.files, entries, pending, b);
        }
      }
    }
    forall a | a in pending && owner(a.original) in w'.roms ensures Somewhere(w'.files, pending, a.original) {
      OthersLoseNothing(w, w', owner, pending, entries, a.original);
    }
    forall a, b | a in pending && b in pending && a != b ensures NotBoth(w', owner, a, b) {
      assert NotBoth(w, owner, a, b);
      if a !in entries && b !in entries {
        PrivateTrash(w.files, w'.files, entries, pending, a);
        PrivateTrash(w.files, w'.files, entries, pending, b);
      }
    }
  }

  /** Every pending file of these ROMs that is in place is among the originals of these entries. */
  ghost predicate Covers(f: Files, owner: Owner, pending: set<Artifact>, roms: set<int>, entries: seq<Artifact>) {
    forall b :: b in pending && owner(b.original) in roms && b.original in f ==>
      exists a :: a in entries && a.original == b.original
  }

  /** A delete that removes its rows when all their files are in its trash. */
  ghost predicate Commits(w: World, w': World, owner: Owner, roms: set<int>, entries: seq<Artifact>) {
    roms <= w.roms && w'.roms == w.roms - roms && OnlyFiles(w.files, w'.files, entries) &&
    forall a :: a in entries ==> owner(a.original) in roms && Leaving(w'.files, a)
  }

  lemma CommitKeepsOne(w: World, w': World, contents: Files, owner: Owner, pending: set<Artifact>, roms: set<int>,
                       entries: seq<Artifact>, b: Artifact)
    requires Apart(pending) && Among(entries, pending) && FilesOk(w, contents, owner, pending)
    requires Commits(w, w', owner, roms, entries) && Covers(w.files, owner, pending, roms, entries)
    requires b in pending && b !in entries
    ensures FileOk(w', contents, owner, b)
  {
    PrivateTrash(w.files, w'.files, entries, pending, b);
    assert FileOk(w, contents, owner, b);
    if a :| a in entries && a.original == b.original {
      assert Leaving(w'.files, a);
    } else {
      OtherOriginal(w.files, w'.files, entries, pending, b);
    }
  }

  lemma CommitKeeps(w: World, w': World, contents: Files, owner: Owner, pending: set<Artifact>, roms: set<int>,
                    entries: seq<Artifact>)
    requires Apart(pending) && Among(entries, pending) && FilesOk(w, contents, owner, pending)
    requires Commits(w, w', owner, roms, entries) && Covers(w.files, owner, pending, roms, entries)
    ensures FilesOk(w', contents, owner, pending)
  {
    forall b | b in pending ensures FileOk(w', contents, owner, b) {
      if b !in entries {
        CommitKeepsOne(w, w', contents, owner, pending, roms, entries, b);
      }
    }
    forall a | a in pending && owner(a.original) in w'.roms ensures Somewhere(w'.files, pending, a.original) {
      OthersLoseNothing(w, w', owner, pending, entries, a.original);
    }
    forall a, b | a in pending && b in pending && a != b ensures NotBoth(w', owner, a, b) {
      assert NotBoth(w, owner, a, b);
      if a !in entries && b !in entries {
        PrivateTrash(w.files, w'.files, entries, pending, a);
        PrivateTrash(w.files, w'.files, entries, pending, b);
      }
    }
  }

  // ---------- several deletes ----------

  /** `before` is the file map the delete started from. */
  datatype DeleteRecord = DeleteRecord(
    op: DeleteOperation,
    before: Files,
    past: set<FileOperationState>,
    mayComplete: bool,
    mayFail: bool,
    settled: Option<DeleteRuns.Settlement>)

  /** `contents` is what the files of the recorded deletes hold. */
  datatype System = System(world: World, contents: Files, deletes: map<string, DeleteRecord>) {
    predicate Unsettled(id: string) {
      id in deletes && deletes[id].settled.None?
    }

    ghost function Pending(): set<Artifact> {
      set id, a | id in deletes && deletes[id].settled.None? && a in deletes[id].op.entries :: a
    }
  }

  datatype Event =
    | Deleting(id: string, op: DeleteOperation, faults: seq<Fault>)
    | Recovering(id: string, listed: FileOperationState, faults: seq<Fault>)
    | RecordingSuccess(id: string)
    | RecordingFailure(id: string)
    | Pruning(id: string)
    | Elsewhere(files: Files, roms: set<int>)

  ghost predicate Plausible(w: World, owner: Owner, op: DeleteOperation) {
    op.roms != [] && Separate(op.entries) &&
    forall a :: a in op.entries ==>
      a.original in w.files && Kind(w.files[a.original], a) && a.trash !in w.files &&
      owner(a.original) in op.RomSet() && owner(a.original) in w.roms
  }

  ghost predicate ApartFrom(entries: seq<Artifact>, others: seq<Artifact>) {
    forall a, b :: a in entries && b in others ==> a.trash !in Footprint(b) && b.trash !in Footprint(a)
  }

  ghost predicate Enabled(sys: System, owner: Owner, e: Event) {
    match e
    case Deleting(id, op, _) =>
      // The files of the ROMs are looked up under the locks, and trash paths carry the operation id.
      id !in sys.deletes && id !in sys.world.journal && Plausible(sys.world, owner, op) &&
      (forall other :: other in sys.deletes ==> ApartFrom(op.entries, sys.deletes[other].op.entries)) &&
      Covers(sys.world.files, owner, sys.Pending(), op.RomSet(), op.entries)
    case Recovering(id, listed, _) => id in sys.deletes && listed in sys.deletes[id].past && listed != Completed
    case RecordingSuccess(id) => id in sys.deletes && sys.deletes[id].mayComplete
    case RecordingFailure(id) => id in sys.deletes && sys.deletes[id].mayFail
    case Pruning(id) => id in sys.world.journal && sys.world.journal[id] == Completed
    case Elsewhere(files, roms) =>
      // Nobody else touches trash or the files of a pending delete; ROM ids are not reused, and a row
      // goes only after the files that a pending delete concerns.
      (forall id :: id in sys.deletes && NoTrash(sys.world.files, sys.deletes[id].op.entries) ==>
        NoTrash(files, sys.deletes[id].op.entries)) &&
      (forall a :: a in sys.Pending() ==>
        Same(sys.world.files, files, a.original) && Same(sys.world.files, files, a.trash) &&
        (owner(a.original) in roms ==> owner(a.original) in sys.world.roms) &&
        (owner(a.original) in sys.world.roms && a.original in files ==> owner(a.original) in roms)) &&
      (forall id :: sys.Unsettled(id) ==>
        forall rom :: rom in sys.deletes[id].op.roms && rom in roms ==> rom in sys.world.roms)
  }

  function Originals(f: Files, entries: seq<Artifact>): Files
    requires forall a :: a in entries ==> a.original in f
  {
    map a | a in entries :: a.original := f[a.original]
  }

  function Reported(sys: System, id: string, state: FileOperationState): System
    requires id in sys.deletes
  {
    var journal := Written(sys.world.journal, id, state);
    var past := sys.deletes[id].past + if id in journal then {journal[id]} else {};
    sys.(world := sys.world.(journal := journal), deletes := sys.deletes[id := sys.deletes[id].(past := past)])
  }

  function NewRecord(before: Files, w: World, id: string, op: DeleteOperation): DeleteRecord
    requires id in w.journal
  {
    var settled := if w.journal[id] == Completed then Some(DeleteRuns.Settlement(w.files, w.roms)) else None;
    DeleteRecord(op, before, DeleteRuns.StatesUpTo(w.journal[id]), false, false, settled)
  }

  function Recorded(sys: System, w: World, id: string, op: DeleteOperation): System
    requires forall a :: a in op.entries ==> a.original in sys.world.files
  {
    if id !in w.journal then sys.(world := w)
    else
      var contents := sys.contents + Originals(sys.world.files, op.entries);
      System(w, contents, sys.deletes[id := NewRecord(sys.world.files, w, id, op)])
  }

  function Recovered(sys: System, r: Run<()>, id: string): System
    requires id in sys.deletes
  {
    var rec := sys.deletes[id];
    var rec' :=
      if r.Done? then
        rec.(mayComplete := true,
             settled := if rec.settled.Some? then rec.settled
                        else Some(DeleteRuns.Settlement(r.world.files, r.world.roms)))
      else rec.(mayFail := rec.mayFail || r.Error?);
    sys.(world := r.world, deletes := sys.deletes[id := rec'])
  }

  ghost function Next(sys: System, owner: Owner, e: Event): System
    requires Enabled(sys, owner, e)
  {
    match e
    case Deleting(id, op, faults) => Recorded(sys, Delete(sys.world.(faults := faults), id, op).world, id, op)
    case Recovering(id, listed, faults) =>
      Recovered(sys, Recover(sys.world.(faults := faults), listed, sys.deletes[id].op), id)
    case RecordingSuccess(id) => Reported(sys, id, Completed)
    case RecordingFailure(id) => Reported(sys, id, Failed)
    case Pruning(id) => sys.(world := sys.world.(journal := sys.world.journal - {id}))
    case Elsewhere(files, roms) => sys.(world := sys.world.(files := files, roms := roms))
  }

  // ---------- the invariant ----------

  ghost predicate OpOk(owner: Owner, op: DeleteOperation) {
    op.roms != [] && Separate(op.entries) && forall a :: a in op.entries ==> owner(a.original) in op.RomSet()
  }

  ghost predicate AllApart(deletes: map<string, DeleteRecord>) {
    forall i, j :: i in deletes && j in deletes && i != j ==> ApartFrom(deletes[i].op.entries, deletes[j].op.entries)
  }

  ghost predicate RecordOk(w: World, owner: Owner, id: string, rec: DeleteRecord) {
    OpOk(owner, rec.op) &&
    (id in w.journal ==> w.journal[id] in rec.past) &&
    (Completed in rec.past ==> rec.settled.Some?) &&
    (rec.settled.None? ==>
      !rec.mayComplete &&
      (DbCommitted in rec.past || CleanupPending in rec.past ==> !DeleteRuns.SomeRow(w.roms, rec.op))) &&
    (rec.settled.Some? ==>
      NoTrash(w.files, rec.op.entries) &&
      DeleteRuns.AllOrNothing(rec.settled.value.files, rec.settled.value.roms, rec.op, rec.before))
  }

  /** The files of a delete hold what they held when it started. */
  ghost predicate Unchanged(contents: Files, rec: DeleteRecord) {
    forall a :: a in rec.op.entries ==> a.original in rec.before && Same(contents, rec.before, a.original)
  }

  ghost predicate Inv(sys: System, owner: Owner) {
    (forall id :: id in sys.deletes ==> RecordOk(sys.world, owner, id, sys.deletes[id])) &&
    (forall id :: sys.Unsettled(id) ==> Unchanged(sys.contents, sys.deletes[id])) &&
    AllApart(sys.deletes) && FilesOk(sys.world, sys.contents, owner, sys.Pending())
  }

  lemma PendingHas(sys: System, id: string)
    requires sys.Unsettled(id)
    ensures Among(sys.deletes[id].op.entries, sys.Pending())
  {
  }

  lemma SeparateMembers(entries: seq<Artifact>, a: Artifact, b: Artifact)
    requires Separate(entries) && a in entries && b in entries
    ensures a.original != a.trash && (a != b ==> a.trash !in Footprint(b))
  {
    var i :| 0 <= i < |entries| && entries[i] == a;
    var j :| 0 <= j < |entries| && entries[j] == b;
    if i != j {
      assert Footprint(entries[i]) !! Footprint(entries[j]);
      assert a.trash in Footprint(a);
    }
  }

  lemma PendingIsApart(sys: System, owner: Owner)
    requires Inv(sys, owner)
    ensures Apart(sys.Pending())
  {
    forall a, b | a in sys.Pending() && b in sys.Pending()
      ensures a.original != a.trash && (a != b ==> a.trash !in Footprint(b))
    {
      var i :| i in sys.deletes && sys.deletes[i].settled.None? && a in sys.deletes[i].op.entries;
      var j :| j in sys.deletes && sys.deletes[j].settled.None? && b in sys.deletes[j].op.entries;
      assert RecordOk(sys.world, owner, i, sys.deletes[i]);
      SeparateMembers(sys.deletes[i].op.entries, a, a);
      if i == j {
        SeparateMembers(sys.deletes[i].op.entries, a, b);
      } else {
        assert ApartFrom(sys.deletes[i].op.entries, sys.deletes[j].op.entries);
      }
    }
  }

  /** The trash of a settled delete stays empty while another one works. */
  lemma OthersHaveNoTrash(f: Files, g: Files, entries: seq<Artifact>, others: seq<Artifact>)
    requires ApartFrom(entries, others) && OnlyFiles(f, g, entries) && NoTrash(f, others)
    ensures NoTrash(g, others)
  {
    forall i | 0 <= i < |others| ensures others[i].trash !in g {
      var b := others[i];
      assert b in others;
      forall a | a in entries ensures b.trash !in Footprint(a) {
      }
      assert b.trash !in Area(entries);
      assert Same(f, g, b.trash);
    }
  }

  /** Records of other deletes hold when one delete works and no row comes back. */
  lemma OtherRecordOk(w: World, w': World, owner: Owner, id: string, op: DeleteOperation, other: string,
                      rec: DeleteRecord)
    requires RecordOk(w, owner, other, rec) && other != id && ApartFrom(op.entries, rec.op.entries)
    requires OnlyFiles(w.files, w'.files, op.entries) && OtherRows(w, w', id) && w'.roms <= w.roms
    ensures RecordOk(w', owner, other, rec)
  {
    if rec.settled.Some? {
      OthersHaveNoTrash(w.files, w'.files, op.entries, rec.op.entries);
    }
  }

  /** Fewer pending artifacts, when those that leave are back in place or belong to no row. */
  lemma Leave(w: World, contents: Files, owner: Owner, pending: set<Artifact>, fewer: set<Artifact>)
    requires FilesOk(w, contents, owner, pending) && fewer <= pending
    requires forall a :: a in pending && a !in fewer && owner(a.original) in w.roms ==> a.original in w.files
    ensures FilesOk(w, contents, owner, fewer)
  {
    forall a | a in fewer && owner(a.original) in w.roms ensures Somewhere(w.files, fewer, a.original) {
      assert Somewhere(w.files, pending, a.original);
      var b :| b in pending && b.original == a.original && HeldHere(w.files, b);
      if b !in fewer {
        assert a.original in w.files && HeldHere(w.files, a);
      }
    }
  }

  // ---------- recovery ----------

  lemma OwnerIsListed(owner: Owner, op: DeleteOperation, a: Artifact)
    requires OpOk(owner, op) && a in op.entries
    ensures owner(a.original) in op.roms && owner(a.original) in op.RomSet()
    ensures forall roms: set<int> :: !DeleteRuns.SomeRow(roms, op) ==> owner(a.original) !in roms
  {
    var rom := owner(a.original);
    assert rom in op.RomSet() && rom in op.roms;
  }

  lemma WhatRecoveryFinds(sys: System, owner: Owner, id: string)
    requires Inv(sys, owner) && sys.Unsettled(id)
    ensures var op := sys.deletes[id].op;
      && (op.RomSet() <= sys.world.roms ==> AllHomed(sys.world.files, sys.contents, op.entries))
      && (!DeleteRuns.SomeRow(sys.world.roms, op) ==> AllLeaving(sys.world.files, op.entries))
  {
    var op := sys.deletes[id].op;
    PendingHas(sys, id);
    assert RecordOk(sys.world, owner, id, sys.deletes[id]);
    forall i | 0 <= i < |op.entries|
      ensures op.RomSet() <= sys.world.roms ==> Homed(sys.world.files, sys.contents, op.entries[i])
      ensures !DeleteRuns.SomeRow(sys.world.roms, op) ==> Leaving(sys.world.files, op.entries[i])
    {
      var a := op.entries[i];
      assert a in op.entries && FileOk(sys.world, sys.contents, owner, a);
      OwnerIsListed(owner, op, a);
    }
  }

  lemma RecoveryShuffles(w: World, r: Run<()>, owner: Owner, op: DeleteOperation, contents: Files)
    requires OpOk(owner, op) && RecoversWell(w, r, op, contents) && op.RomSet() <= w.roms
    ensures Shuffles(w, r.world, contents, owner, op.entries)
  {
    forall a | a in op.entries
      ensures owner(a.original) in w.roms && Homed(r.world.files, contents, a)
      ensures HeldHere(w.files, a) <==> HeldHere(r.world.files, a)
    {
      var i :| 0 <= i < |op.entries| && op.entries[i] == a;
    }
  }

  lemma RecoveryDrops(w: World, r: Run<()>, owner: Owner, op: DeleteOperation, contents: Files)
    requires OpOk(owner, op) && RecoversWell(w, r, op, contents)
    requires !(op.RomSet() <= w.roms) && !DeleteRuns.SomeRow(w.roms, op)
    ensures forall a :: a in op.entries ==> owner(a.original) !in w.roms && Leaving(r.world.files, a)
  {
    forall a | a in op.entries ensures owner(a.original) !in w.roms && Leaving(r.world.files, a) {
      var i :| 0 <= i < |op.entries| && op.entries[i] == a;
      OwnerIsListed(owner, op, a);
    }
  }

  lemma RecoveryKeepsFiles(w: World, r: Run<()>, owner: Owner, op: DeleteOperation, contents: Files,
                           pending: set<Artifact>)
    requires OpOk(owner, op) && RecoversWell(w, r, op, contents)
    requires Apart(pending) && Among(op.entries, pending) && FilesOk(w, contents, owner, pending)
    ensures FilesOk(r.world, contents, owner, pending)
  {
    if op.RomSet() <= w.roms {
      RecoveryShuffles(w, r, owner, op, contents);
      ShuffleKeeps(w, r.world, contents, owner, pending, op.entries);
    } else if DeleteRuns.SomeRow(w.roms, op) {
      SameFilesOk(w, r.world, contents, owner, pending);
    } else {
      RecoveryDrops(w, r, owner, op, contents);
      DropKeeps(w, r.world, contents, owner, pending, op.entries);
    }
  }

  lemma RecoveredRecordOk(sys: System, owner: Owner, id: string, w: World, r: Run<()>)
    requires Inv(sys, owner) && sys.Unsettled(id) && w == sys.world.(faults := w.faults)
    requires RecoversWell(w, r, sys.deletes[id].op, sys.contents)
    ensures RecordOk(r.world, owner, id, Recovered(sys, r, id).deletes[id])
  {
    var rec := sys.deletes[id];
    assert RecordOk(sys.world, owner, id, rec);
    if r.Done? {
      if rec.op.RomSet() <= w.roms {
        AllRowsListed(w, rec.op);
        KeptHasNoTrash(r.world.files, sys.contents, rec.op.entries);
        KeptFromStart(r.world.files, sys.contents, rec);
      }
    }
  }

  lemma AllRowsListed(w: World, op: DeleteOperation)
    requires op.RomSet() <= w.roms
    ensures forall rom :: rom in op.roms ==> rom in w.roms
  {
    forall rom | rom in op.roms ensures rom in w.roms {
      assert rom in op.RomSet();
    }
  }

  lemma KeptFromStart(f: Files, contents: Files, rec: DeleteRecord)
    requires AllKept(f, contents, rec.op.entries) && Unchanged(contents, rec)
    ensures AllKept(f, rec.before, rec.op.entries)
  {
    forall i | 0 <= i < |rec.op.entries| ensures Kept(f, rec.before, rec.op.entries[i]) {
      assert rec.op.entries[i] in rec.op.entries && Kept(f, contents, rec.op.entries[i]);
    }
  }

  lemma KeptHasNoTrash(f: Files, before: Files, entries: seq<Artifact>)
    requires AllKept(f, before, entries)
    ensures NoTrash(f, entries)
  {
    forall i | 0 <= i < |entries| ensures entries[i].trash !in f {
      assert Kept(f, before, entries[i]);
    }
  }

  /** The pending artifacts when one delete may have settled. */
  lemma PendingAfter(sys: System, deletes: map<string, DeleteRecord>, world: World, contents: Files, id: string)
    requires sys.Unsettled(id) && deletes.Keys == sys.deletes.Keys && deletes[id].op == sys.deletes[id].op
    requires forall other :: other in deletes && other != id ==> deletes[other] == sys.deletes[other]
    ensures var fewer := System(world, contents, deletes).Pending();
      && fewer <= sys.Pending()
      && forall a :: a in sys.Pending() && a !in fewer ==> a in sys.deletes[id].op.entries && deletes[id].settled.Some?
  {
    var next := System(world, contents, deletes);
    forall a | a in next.Pending() ensures a in sys.Pending() {
      var i :| i in deletes && deletes[i].settled.None? && a in deletes[i].op.entries;
      assert i in sys.deletes && sys.deletes[i].settled.None? && a in sys.deletes[i].op.entries;
    }
    forall a | a in sys.Pending() && a !in next.Pending()
      ensures a in sys.deletes[id].op.entries && deletes[id].settled.Some?
    {
      var i :| i in sys.deletes && sys.deletes[i].settled.None? && a in sys.deletes[i].op.entries;
      assert i in deletes && (deletes[i].settled.None? ==> a in next.Pending());
    }
  }

  /** Settling takes the entries out of the pending ones; they are in place, or their rows are gone. */
  lemma RecoveredFilesOk(sys: System, owner: Owner, id: string, w: World, r: Run<()>)
    requires Inv(sys, owner) && sys.Unsettled(id) && w == sys.world.(faults := w.faults)
    requires RecoversWell(w, r, sys.deletes[id].op, sys.contents)
    ensures FilesOk(r.world, sys.contents, owner, Recovered(sys, r, id).Pending())
  {
    var next, op := Recovered(sys, r, id), sys.deletes[id].op;
    assert RecordOk(sys.world, owner, id, sys.deletes[id]);
    PendingHas(sys, id);
    PendingIsApart(sys, owner);
    SameFilesOk(sys.world, w, sys.contents, owner, sys.Pending());
    RecoveryKeepsFiles(w, r, owner, op, sys.contents, sys.Pending());
    PendingAfter(sys, next.deletes, r.world, sys.contents, id);
    forall a | a in sys.Pending() && a !in next.Pending() && owner(a.original) in r.world.roms
      ensures a.original in r.world.files
    {
      SettledInPlace(w, r, owner, op, sys.contents, a);
    }
    Leave(r.world, sys.contents, owner, sys.Pending(), next.Pending());
  }

  lemma SettledInPlace(w: World, r: Run<()>, owner: Owner, op: DeleteOperation, contents: Files, a: Artifact)
    requires RecoversWell(w, r, op, contents) && OpOk(owner, op) && r.Done?
    requires a in op.entries && owner(a.original) in r.world.roms
    ensures a.original in r.world.files
  {
    var i :| 0 <= i < |op.entries| && op.entries[i] == a;
    if op.RomSet() <= w.roms {
      assert Kept(r.world.files, contents, op.entries[i]);
    } else {
      OwnerIsListed(owner, op, a);
    }
  }

  lemma RecoveringKeepsInv(sys: System, owner: Owner, e: Event)
    requires e.Recovering? && Inv(sys, owner) && Enabled(sys, owner, e)
    ensures Inv(Next(sys, owner, e), owner)
  {
    var w, rec := sys.world.(faults := e.faults), sys.deletes[e.id];
    var r := Recover(w, e.listed, rec.op);
    var next := Next(sys, owner, e);
    assert RecordOk(sys.world, owner, e.id, rec);
    if rec.settled.Some? {
      RecoverIdle(w, e.listed, rec.op);
      IdleKeepsInv(sys, owner, next, e.id);
    } else {
      WhatRecoveryFinds(sys, owner, e.id);
      RecoverOutcome(w, e.listed, rec.op, sys.contents);
      RecoveredRecordOk(sys, owner, e.id, w, r);
      RecoveredFilesOk(sys, owner, e.id, w, r);
      forall id | id in next.deletes ensures RecordOk(next.world, owner, id, next.deletes[id]) {
        if id != e.id {
          assert RecordOk(sys.world, owner, id, sys.deletes[id]);
          assert ApartFrom(rec.op.entries, sys.deletes[id].op.entries);
          OtherRecordOk(w, r.world, owner, e.id, rec.op, id, sys.deletes[id]);
        }
      }
      SameOpsApart(sys.deletes, next.deletes);
    }
  }

  lemma SameOpsApart(deletes: map<string, DeleteRecord>, deletes': map<string, DeleteRecord>)
    requires AllApart(deletes) && deletes'.Keys == deletes.Keys
    requires forall id :: id in deletes ==> deletes'[id].op == deletes[id].op
    ensures AllApart(deletes')
  {
  }

  lemma SamePending(sys: System, next: System)
    requires next.deletes.Keys == sys.deletes.Keys
    requires forall id :: id in sys.deletes ==>
      next.deletes[id].op == sys.deletes[id].op && next.deletes[id].settled == sys.deletes[id].settled
    ensures next.Pending() == sys.Pending()
  {
    forall a ensures a in next.Pending() <==> a in sys.Pending() {
      if a in next.Pending() {
        var i :| i in next.deletes && next.deletes[i].settled.None? && a in next.deletes[i].op.entries;
        assert i in sys.deletes && sys.deletes[i].settled.None? && a in sys.deletes[i].op.entries;
      }
      if a in sys.Pending() {
        var i :| i in sys.deletes && sys.deletes[i].settled.None? && a in sys.deletes[i].op.entries;
        assert i in next.deletes && next.deletes[i].settled.None? && a in next.deletes[i].op.entries;
      }
    }
  }

  /** Steps that leave files and rows alone and only write down what happened. */
  lemma IdleKeepsInv(sys: System, owner: Owner, next: System, id: string)
    requires Inv(sys, owner) && id in sys.deletes && next.deletes.Keys == sys.deletes.Keys
    requires next.world.files == sys.world.files && next.world.roms == sys.world.roms && next.contents == sys.contents
    requires forall other :: other in sys.deletes && other != id ==> next.deletes[other] == sys.deletes[other]
    requires OtherRows(sys.world, next.world, id)
    requires next.deletes[id].op == sys.deletes[id].op && next.deletes[id].settled == sys.deletes[id].settled
    requires next.deletes[id].before == sys.deletes[id].before
    requires RecordOk(next.world, owner, id, next.deletes[id])
    ensures Inv(next, owner)
  {
    SamePending(sys, next);
    SameOpsApart(sys.deletes, next.deletes);
    SameFilesOk(sys.world, next.world, sys.contents, owner, sys.Pending());
    forall other | other in next.deletes ensures RecordOk(next.world, owner, other, next.deletes[other]) {
      if other != id {
        assert RecordOk(sys.world, owner, other, sys.deletes[other]);
      }
    }
  }

  lemma SameFilesOk(w: World, w': World, contents: Files, owner: Owner, pending: set<Artifact>)
    requires FilesOk(w, contents, owner, pending) && w'.files == w.files && w'.roms == w.roms
    ensures FilesOk(w', contents, owner, pending)
  {
    forall a, b | a in pending && b in pending && a != b ensures NotBoth(w', owner, a, b) {
      assert NotBoth(w, owner, a, b);
    }
    forall a | a in pending ensures FileOk(w', contents, owner, a) {
      assert FileOk(w, contents, owner, a);
    }
  }

  // ---------- the other events ----------

  /** The invariant with a new delete that has done nothing yet. */
  lemma JoinsFilesOk(w: World, contents: Files, owner: Owner, pending: set<Artifact>, op: DeleteOperation,
                     more: set<Artifact>)
    requires FilesOk(w, contents, owner, pending) && Plausible(w, owner, op)
    requires forall a :: a in more <==> a in pending || a in op.entries
    ensures FilesOk(w, contents + Originals(w.files, op.entries), owner, more)
  {
    var contents' := contents + Originals(w.files, op.entries);
    forall a | a in more ensures FileOk(w, contents', owner, a) {
      if a in op.entries {
        assert contents'[a.original] == w.files[a.original];
      } else {
        assert FileOk(w, contents, owner, a);
        if a.original in Originals(w.files, op.entries) {
          assert a.original in w.files && contents'[a.original] == w.files[a.original];
        }
      }
    }
    forall a | a in more && owner(a.original) in w.roms ensures Somewhere(w.files, more, a.original) {
      if a in op.entries {
        assert HeldHere(w.files, a);
      } else {
        assert Somewhere(w.files, pending, a.original);
        var b :| b in pending && b.original == a.original && HeldHere(w.files, b);
        assert b in more;
      }
    }
    forall a, b | a in more && b in more && a != b ensures NotBoth(w, owner, a, b) {
      if a in pending && b in pending {
        assert NotBoth(w, owner, a, b);
      }
    }
  }

  lemma JoinsApart(sys: System, owner: Owner, id: string, op: DeleteOperation, more: set<Artifact>)
    requires Inv(sys, owner) && Separate(op.entries)
    requires forall other :: other in sys.deletes ==> ApartFrom(op.entries, sys.deletes[other].op.entries)
    requires forall a :: a in more <==> a in sys.Pending() || a in op.entries
    ensures Apart(more)
  {
    PendingIsApart(sys, owner);
    forall a, b | a in more && b in more ensures a.original != a.trash && (a != b ==> a.trash !in Footprint(b)) {
      if a in op.entries && b in op.entries {
        SeparateMembers(op.entries, a, b);
      } else if a in op.entries {
        SeparateMembers(op.entries, a, a);
        PendingApartFrom(sys, op.entries, a, b);
      } else if b in op.entries {
        PendingApartFrom(sys, op.entries, b, a);
      }
    }
  }

  lemma PendingApartFrom(sys: System, entries: seq<Artifact>, a: Artifact, b: Artifact)
    requires forall other :: other in sys.deletes ==> ApartFrom(entries, sys.deletes[other].op.entries)
    requires a in entries && b in sys.Pending()
    ensures a.trash !in Footprint(b) && b.trash !in Footprint(a)
  {
    var i :| i in sys.deletes && sys.deletes[i].settled.None? && b in sys.deletes[i].op.entries;
    assert ApartFrom(entries, sys.deletes[i].op.entries);
  }

  lemma PlausibleIsKept(w: World, owner: Owner, op: DeleteOperation)
    requires Plausible(w, owner, op)
    ensures AllKept(w.files, w.files, op.entries)
  {
    forall i | 0 <= i < |op.entries| ensures Kept(w.files, w.files, op.entries[i]) {
      assert op.entries[i] in op.entries;
    }
  }

  /** Where a delete leaves all pending files, its own included. */
  lemma DeletedFilesOk(w: World, w': World, contents: Files, owner: Owner, pending: set<Artifact>, id: string,
                       op: DeleteOperation, more: set<Artifact>)
    requires Plausible(w, owner, op) && FilesOk(w, contents, owner, pending)
    requires forall a :: a in more <==> a in pending || a in op.entries
    requires Apart(more) && Covers(w.files, owner, pending, op.RomSet(), op.entries)
    requires OnlyFiles(w.files, w'.files, op.entries)
    requires Undone(w, w', id, op, w.files) || Committed(w, w', id, op)
    ensures FilesOk(w', contents + Originals(w.files, op.entries), owner, more)
  {
    var contents' := contents + Originals(w.files, op.entries);
    JoinsFilesOk(w, contents, owner, pending, op, more);
    if Undone(w, w', id, op, w.files) {
      UndoneShuffles(w, w', contents', owner, id, op);
      ShuffleKeeps(w, w', contents', owner, more, op.entries);
    } else {
      CommittedCommits(w, w', owner, id, op);
      CommitKeeps(w, w', contents', owner, more, op.RomSet(), op.entries);
    }
  }

  lemma UndoneShuffles(w: World, w': World, contents: Files, owner: Owner, id: string, op: DeleteOperation)
    requires Plausible(w, owner, op) && Undone(w, w', id, op, w.files) && OnlyFiles(w.files, w'.files, op.entries)
    requires forall a :: a in op.entries ==> a.original in contents && contents[a.original] == w.files[a.original]
    ensures Shuffles(w, w', contents, owner, op.entries)
  {
    forall a | a in op.entries
      ensures owner(a.original) in w.roms && Homed(w'.files, contents, a)
      ensures HeldHere(w.files, a) <==> HeldHere(w'.files, a)
    {
      var i :| 0 <= i < |op.entries| && op.entries[i] == a;
      assert Movable(w'.files, w.files, op.entries[i]);
    }
  }

  lemma CommittedCommits(w: World, w': World, owner: Owner, id: string, op: DeleteOperation)
    requires Plausible(w, owner, op) && Committed(w, w', id, op) && OnlyFiles(w.files, w'.files, op.entries)
    ensures Commits(w, w', owner, op.RomSet(), op.entries)
  {
    forall a | a in op.entries ensures owner(a.original) in op.RomSet() && Leaving(w'.files, a) {
      var i :| 0 <= i < |op.entries| && op.entries[i] == a;
    }
  }

  lemma DeletedRecordOk(w: World, w': World, owner: Owner, id: string, op: DeleteOperation)
    requires Plausible(w, owner, op) && id in w'.journal
    requires Undone(w, w', id, op, w.files) || Committed(w, w', id, op)
    ensures RecordOk(w', owner, id, NewRecord(w.files, w', id, op))
  {
    if Committed(w, w', id, op) {
      forall rom | rom in op.roms ensures rom !in w'.roms {
        assert rom in op.RomSet();
      }
    }
  }

  lemma PendingWithNew(sys: System, w: World, id: string, op: DeleteOperation, more: set<Artifact>)
    requires id !in sys.deletes && id in w.journal && forall a :: a in op.entries ==> a.original in sys.world.files
    requires forall a :: a in more <==> a in sys.Pending() || a in op.entries
    ensures var next := Recorded(sys, w, id, op);
      next.Pending() == if w.journal[id] == Completed then sys.Pending() else more
  {
    var next := Recorded(sys, w, id, op);
    forall a ensures a in next.Pending() <==>
                     a in sys.Pending() || (a in op.entries && w.journal[id] != Completed)
    {
      if a in next.Pending() {
        var i :| i in next.deletes && next.deletes[i].settled.None? && a in next.deletes[i].op.entries;
        assert i != id ==> i in sys.deletes && sys.deletes[i].settled.None? && a in sys.deletes[i].op.entries;
      }
      if a in sys.Pending() {
        var i :| i in sys.deletes && sys.deletes[i].settled.None? && a in sys.deletes[i].op.entries;
        assert i in next.deletes && next.deletes[i].settled.None? && a in next.deletes[i].op.entries;
      }
      if a in op.entries && w.journal[id] != Completed {
        assert id in next.deletes && next.deletes[id].settled.None? && a in next.deletes[id].op.entries;
      }
    }
  }

  lemma DeletingWithoutRow(sys: System, owner: Owner, id: string, op: DeleteOperation, w': World)
    requires Inv(sys, owner) && Plausible(sys.world, owner, op) && id !in sys.deletes && id !in w'.journal
    requires w'.files == sys.world.files && w'.roms == sys.world.roms && OtherRows(sys.world, w', id)
    ensures Inv(Recorded(sys, w', id, op), owner)
  {
    var next := Recorded(sys, w', id, op);
    SamePending(sys, next);
    SameFilesOk(sys.world, w', sys.contents, owner, sys.Pending());
    forall other | other in sys.deletes ensures RecordOk(w', owner, other, sys.deletes[other]) {
      assert RecordOk(sys.world, owner, other, sys.deletes[other]);
    }
  }

  /** Without a row the delete has not begun. */
  lemma NoRowNoChange(w: World, id: string, op: DeleteOperation)
    requires Separate(op.entries) && id !in w.journal && AllKept(w.files, w.files, op.entries)
    ensures var w' := Delete(w, id, op).world;
      id !in w'.journal ==> w'.files == w.files && w'.roms == w.roms
  {
    var r1 := CreateRow(w, id);
    if r1.Done? {
      MoveEntriesSafe(r1.world, id, op.entries, 0, w.files);
      var r2 := MoveEntries(r1.world, id, op.entries, 0);
      if r2.Done? {
        CommitOutcome(r2.world, id, op, w.files);
        CommitKeepsRow(r2.world, id, op, w.files);
      }
    }
  }

  lemma CommitKeepsRow(w: World, id: string, op: DeleteOperation, before: Files)
    requires Separate(op.entries) && id in w.journal && w.journal[id] == Prepared
    requires forall i :: 0 <= i < |op.entries| ==> Trashed(w.files, before, op.entries[i])
    ensures id in CommitRows(w, id, op).world.journal
  {
    var r := CommitDelete(w, id, op.RomSet());
    if r.Error? {
      RestoreAndFailSafe(r.world, id, op.entries, |op.entries|, r.reason, before);
    } else if r.Done? {
      forall i | 0 <= i < |op.entries| ensures Leaving(r.world.files, op.entries[i]) {
        assert Trashed(w.files, before, op.entries[i]);
      }
      FinishOutcome(r.world, id, op);
    }
  }

  lemma DeletingKeepsFiles(sys: System, owner: Owner, id: string, op: DeleteOperation, w': World)
    requires Inv(sys, owner) && Plausible(sys.world, owner, op) && id !in sys.deletes && id in w'.journal
    requires forall other :: other in sys.deletes ==> ApartFrom(op.entries, sys.deletes[other].op.entries)
    requires Covers(sys.world.files, owner, sys.Pending(), op.RomSet(), op.entries)
    requires OnlyFiles(sys.world.files, w'.files, op.entries)
    requires Undone(sys.world, w', id, op, sys.world.files) || Committed(sys.world, w', id, op)
    ensures FilesOk(w', Recorded(sys, w', id, op).contents, owner, Recorded(sys, w', id, op).Pending())
  {
    var more := sys.Pending() + set a | a in op.entries;
    var next := Recorded(sys, w', id, op);
    JoinsApart(sys, owner, id, op, more);
    DeletedFilesOk(sys.world, w', sys.contents, owner, sys.Pending(), id, op, more);
    PendingWithNew(sys, w', id, op, more);
    if w'.journal[id] == Completed {
      forall a | a in more && a !in sys.Pending() ensures owner(a.original) !in w'.roms {
        assert a in op.entries && owner(a.original) in op.RomSet();
      }
      Leave(w', next.contents, owner, more, sys.Pending());
    }
  }

  /** A pending file that a new delete names is in place, so its content is what is known already. */
  lemma DeletingChangesNone(sys: System, owner: Owner, id: string, op: DeleteOperation, w': World)
    requires Inv(sys, owner) && Plausible(sys.world, owner, op) && id !in sys.deletes && id in w'.journal
    ensures var next := Recorded(sys, w', id, op);
      forall other :: next.Unsettled(other) ==> Unchanged(next.contents, next.deletes[other])
  {
    var next := Recorded(sys, w', id, op);
    forall other | next.Unsettled(other) ensures Unchanged(next.contents, next.deletes[other]) {
      if other != id {
        var rec := sys.deletes[other];
        assert sys.Unsettled(other) && Unchanged(sys.contents, rec);
        PendingHas(sys, other);
        forall a | a in rec.op.entries ensures Same(next.contents, rec.before, a.original) {
          assert FileOk(sys.world, sys.contents, owner, a);
        }
      }
    }
  }

  lemma DeletingKeepsInv(sys: System, owner: Owner, e: Event)
    requires e.Deleting? && Inv(sys, owner) && Enabled(sys, owner, e)
    ensures Inv(Next(sys, owner, e), owner)
  {
    var w := sys.world.(faults := e.faults);
    var w', next := Delete(w, e.id, e.op).world, Next(sys, owner, e);
    PlausibleIsKept(sys.world, owner, e.op);
    DeleteOutcome(w, e.id, e.op);
    NoRowNoChange(w, e.id, e.op);
    if e.id !in w'.journal {
      DeletingWithoutRow(sys, owner, e.id, e.op, w');
    } else {
      assert Undone(sys.world, w', e.id, e.op, sys.world.files) || Committed(sys.world, w', e.id, e.op);
      DeletingKeepsFiles(sys, owner, e.id, e.op, w');
      DeletedRecordOk(sys.world, w', owner, e.id, e.op);
      DeletingChangesNone(sys, owner, e.id, e.op, w');
      forall other | other in next.deletes ensures RecordOk(w', owner, other, next.deletes[other]) {
        if other != e.id {
          OtherRecordOk(sys.world, w', owner, e.id, e.op, other, sys.deletes[other]);
        }
      }
      NewIsApart(sys.deletes, e.id, next.deletes);
    }
  }

  lemma NewIsApart(deletes: map<string, DeleteRecord>, id: string, deletes': map<string, DeleteRecord>)
    requires AllApart(deletes) && id !in deletes && deletes'.Keys == deletes.Keys + {id}
    requires forall other :: other in deletes ==> deletes'[other] == deletes[other]
    requires forall other :: other in deletes ==> ApartFrom(deletes'[id].op.entries, deletes[other].op.entries)
    ensures AllApart(deletes')
  {
    forall i, j | i in deletes' && j in deletes' && i != j
      ensures ApartFrom(deletes'[i].op.entries, deletes'[j].op.entries)
    {
      if i == id {
        assert ApartFrom(deletes'[id].op.entries, deletes[j].op.entries);
      } else if j == id {
        assert ApartFrom(deletes'[id].op.entries, deletes[i].op.entries);
      }
    }
  }

  lemma ReportingKeepsInv(sys: System, owner: Owner, id: string, state: FileOperationState)
    requires Inv(sys, owner) && id in sys.deletes && state in {Completed, Failed}
    requires state == Completed ==> sys.deletes[id].mayComplete
    ensures Inv(Reported(sys, id, state), owner)
  {
    assert RecordOk(sys.world, owner, id, sys.deletes[id]);
    IdleKeepsInv(sys, owner, Reported(sys, id, state), id);
  }

  lemma PruningKeepsInv(sys: System, owner: Owner, id: string)
    requires Inv(sys, owner)
    ensures Inv(sys.(world := sys.world.(journal := sys.world.journal - {id})), owner)
  {
    var next := sys.(world := sys.world.(journal := sys.world.journal - {id}));
    SamePending(sys, next);
    SameFilesOk(sys.world, next.world, sys.contents, owner, sys.Pending());
    forall other | other in sys.deletes ensures RecordOk(next.world, owner, other, sys.deletes[other]) {
      assert RecordOk(sys.world, owner, other, sys.deletes[other]);
    }
  }

  lemma ElsewhereKeepsFiles(sys: System, owner: Owner, e: Event)
    requires e.Elsewhere? && Inv(sys, owner) && Enabled(sys, owner, e)
    ensures FilesOk(Next(sys, owner, e).world, sys.contents, owner, sys.Pending())
  {
    var w, w' := sys.world, Next(sys, owner, e).world;
    forall a | a in sys.Pending() ensures FileOk(w', sys.contents, owner, a) {
      assert FileOk(w, sys.contents, owner, a);
    }
    forall a | a in sys.Pending() && owner(a.original) in w'.roms
      ensures Somewhere(w'.files, sys.Pending(), a.original)
    {
      assert Somewhere(w.files, sys.Pending(), a.original);
      var b :| b in sys.Pending() && b.original == a.original && HeldHere(w.files, b);
      assert Same(w.files, w'.files, b.original) && Same(w.files, w'.files, b.trash);
    }
    forall a, b | a in sys.Pending() && b in sys.Pending() && a != b ensures NotBoth(w', owner, a, b) {
      assert NotBoth(w, owner, a, b) && Same(w.files, w'.files, a.trash) && Same(w.files, w'.files, b.trash);
    }
  }

  lemma ElsewhereKeepsInv(sys: System, owner: Owner, e: Event)
    requires e.Elsewhere? && Inv(sys, owner) && Enabled(sys, owner, e)
    ensures Inv(Next(sys, owner, e), owner)
  {
    var next := Next(sys, owner, e);
    SamePending(sys, next);
    ElsewhereKeepsFiles(sys, owner, e);
    forall id | id in sys.deletes ensures RecordOk(next.world, owner, id, sys.deletes[id]) {
      assert RecordOk(sys.world, owner, id, sys.deletes[id]);
    }
  }

  // ---------- every run ----------

  lemma StepKeepsInv(sys: System, owner: Owner, e: Event)
    requires Inv(sys, owner) && Enabled(sys, owner, e)
    ensures Inv(Next(sys, owner, e), owner)
  {
    match e
    case Deleting(_, _, _) => DeletingKeepsInv(sys, owner, e);
    case Recovering(_, _, _) => RecoveringKeepsInv(sys, owner, e);
    case RecordingSuccess(id) => ReportingKeepsInv(sys, owner, id, Completed);
    case RecordingFailure(id) => ReportingKeepsInv(sys, owner, id, Failed);
    case Pruning(id) => PruningKeepsInv(sys, owner, id);
    case Elsewhere(_, _) => ElsewhereKeepsInv(sys, owner, e);
  }

  ghost predicate Allowed(sys: System, owner: Owner, events: seq<Event>)
    decreases |events|
  {
    events == [] || (Enabled(sys, owner, events[0]) && Allowed(Next(sys, owner, events[0]), owner, events[1..]))
  }

  ghost function After(sys: System, owner: Owner, events: seq<Event>): System
    requires Allowed(sys, owner, events)
    decreases |events|
  {
    if events == [] then sys else After(Next(sys, owner, events[0]), owner, events[1..])
  }

  lemma {:induction false} RunKeepsInv(sys: System, owner: Owner, events: seq<Event>)
    requires Inv(sys, owner) && Allowed(sys, owner, events)
    ensures Inv(After(sys, owner, events), owner)
    decreases |events|
  {
    if events != [] {
      StepKeepsInv(sys, owner, events[0]);
      RunKeepsInv(Next(sys, owner, events[0]), owner, events[1..]);
    }
  }

  /**
   In every run of any number of deletes and recoveries that overlap in files and rows, with crashes,
   failures, stale lists and late reports: a completed delete has settled; it settled with all its rows
   and originals back, as they were before it, or with all its rows, originals and trash gone; and no
   later recovery of it changes a file.
   */
  lemma OverlappingDeletesAreAllOrNothing(
      start: World, owner: Owner, events: seq<Event>, id: string, listed: FileOperationState, faults: seq<Fault>)
    requires Allowed(System(start, map[], map[]), owner, events)
    requires id in After(System(start, map[], map[]), owner, events).deletes
    ensures var end := After(System(start, map[], map[]), owner, events);
      var rec := end.deletes[id];
      && (id in end.world.journal && end.world.journal[id] == Completed ==> rec.settled.Some?)
      && (rec.settled.Some? ==>
            DeleteRuns.AllOrNothing(rec.settled.value.files, rec.settled.value.roms, rec.op, rec.before) &&
            Recover(end.world.(faults := faults), listed, rec.op).world.files == end.world.files)
  {
    var sys := System(start, map[], map[]);
    assert sys.Pending() == {};
    RunKeepsInv(sys, owner, events);
    var end := After(sys, owner, events);
    assert RecordOk(end.world, owner, id, end.deletes[id]);
    if end.deletes[id].settled.Some? {
      RecoverIdle(end.world.(faults := faults), listed, end.deletes[id].op);
    }
  }

  /** This pending delete has the file, with its content, and no other one has it in its trash. */
  ghost predicate OnlyHome(f: Files, contents: Files, pending: set<Artifact>, b: Artifact) {
    Movable(f, contents, b) &&
    forall c :: c in pending && c.original == b.original && c != b ==> c.trash !in f
  }

  lemma HasOneHome(w: World, contents: Files, owner: Owner, pending: set<Artifact>, a: Artifact) returns (b: Artifact)
    requires FilesOk(w, contents, owner, pending) && a in pending && owner(a.original) in w.roms
    ensures b in pending && b.original == a.original && OnlyHome(w.files, contents, pending, b)
  {
    assert Somewhere(w.files, pending, a.original);
    if x :| x in pending && x.original == a.original && x.trash in w.files {
      b := x;
    } else {
      b :| b in pending && b.original == a.original && HeldHere(w.files, b);
    }
    assert FileOk(w, contents, owner, b);
    MovableIs(w.files, contents, b);
    forall c | c in pending && c.original == b.original && c != b ensures c.trash !in w.files {
      assert FileOk(w, contents, owner, c) && NotBoth(w, owner, b, c);
    }
  }

  /**
   No file is lost or doubled on the way: while its ROM's row is there, a file of a pending delete is in
   place or in the trash of a pending delete, with the content it had when this delete started, and in no
   other trash.
   */
  lemma NoFileIsLost(start: World, owner: Owner, events: seq<Event>, id: string, a: Artifact) returns (b: Artifact)
    requires Allowed(System(start, map[], map[]), owner, events)
    requires After(System(start, map[], map[]), owner, events).Unsettled(id)
    requires a in After(System(start, map[], map[]), owner, events).deletes[id].op.entries
    requires owner(a.original) in After(System(start, map[], map[]), owner, events).world.roms
    ensures var end := After(System(start, map[], map[]), owner, events);
      b in end.Pending() && b.original == a.original &&
      OnlyHome(end.world.files, end.deletes[id].before, end.Pending(), b)
  {
    var sys := System(start, map[], map[]);
    assert sys.Pending() == {};
    RunKeepsInv(sys, owner, events);
    var end := After(sys, owner, events);
    PendingHas(end, id);
    b := HasOneHome(end.world, end.contents, owner, end.Pending(), a);
    assert Unchanged(end.contents, end.deletes[id]);
  }

  // ---------- what `before` is ----------

  /** The record keeps the file map of the moment at which the delete started. */
  lemma BeforeIsTheStart(sys: System, owner: Owner, e: Event, more: seq<Event>, id: string)
    requires Enabled(sys, owner, e) && Allowed(Next(sys, owner, e), owner, more)
    requires e.Deleting? && e.id == id && id in Next(sys, owner, e).deletes
    ensures var end := After(Next(sys, owner, e), owner, more);
      id in end.deletes && end.deletes[id].op == e.op && end.deletes[id].before == sys.world.files
  {
    RecordsStay(Next(sys, owner, e), owner, more, id);
  }

  lemma {:induction false} RecordsStay(sys: System, owner: Owner, events: seq<Event>, id: string)
    requires id in sys.deletes && Allowed(sys, owner, events)
    ensures var end := After(sys, owner, events);
      id in end.deletes && end.deletes[id].op == sys.deletes[id].op && end.deletes[id].before == sys.deletes[id].before
    decreases |events|
  {
    if events != [] {
      RecordsStay(Next(sys, owner, events[0]), owner, events[1..], id);
    }
  }
}
