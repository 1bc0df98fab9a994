/** What deletes and their recovery guarantee about files and rows under any fault schedule. */
module DeleteSafety {
  import opened Storage
  import opened Deletes

  function Footprint(a: Artifact): set<Location> {
    {a.original, a.trash}
  }

  ghost predicate Kind(node: Node, a: Artifact) {
    node.Tree? <==> a.directory
  }

  /** Entries of one operation are about pairwise distinct files, and trash is never the original. */
  ghost predicate Separate(entries: seq<Artifact>) {
    (forall i :: 0 <= i < |entries| ==> entries[i].original != entries[i].trash) &&
    (forall i, j :: 0 <= i < |entries| && 0 <= j < |entries| && i != j ==>
      Footprint(entries[i]) !! Footprint(entries[j]))
  }

  /** The original is where it was before the operation and the trash is empty. */
  ghost predicate Kept(f: Files, before: Files, a: Artifact) {
    a.original in before && Kind(before[a.original], a) &&
    a.original in f && f[a.original] == before[a.original] && a.trash !in f
  }

  ghost predicate Trashed(f: Files, before: Files, a: Artifact) {
    a.original in before && Kind(before[a.original], a) &&
    a.trash in f && f[a.trash] == before[a.original] && a.original !in f
  }

  ghost predicate Movable(f: Files, before: Files, a: Artifact) {
    Kept(f, before, a) || Trashed(f, before, a)
  }

  /** This delete or another one has it: nothing in the two places contradicts `before`. */
  ghost predicate Homed(f: Files, before: Files, a: Artifact) {
    a.original in before && Kind(before[a.original], a) &&
    (a.original in f ==> f[a.original] == before[a.original] && a.trash !in f) &&
    (a.trash in f ==> f[a.trash] == before[a.original])
  }

  ghost predicate HeldHere(f: Files, a: Artifact) {
    a.original in f || a.trash in f
  }

  /** Past the commit: the original is gone and the trash, possibly a half-removed directory, may remain. */
  ghost predicate Leaving(f: Files, a: Artifact) {
    a.original !in f && (a.trash in f ==> Kind(f[a.trash], a))
  }

  ghost predicate Gone(f: Files, a: Artifact) {
    a.original !in f && a.trash !in f
  }

  ghost predicate AllKept(f: Files, before: Files, entries: seq<Artifact>) {
    forall i :: 0 <= i < |entries| ==> Kept(f, before, entries[i])
  }

  ghost predicate AllMovable(f: Files, before: Files, entries: seq<Artifact>) {
    forall i :: 0 <= i < |entries| ==> Movable(f, before, entries[i])
  }

  ghost predicate AllLeaving(f: Files, entries: seq<Artifact>) {
    forall i :: 0 <= i < |entries| ==> Leaving(f, entries[i])
  }

  ghost predicate AllGone(f: Files, entries: seq<Artifact>) {
    forall i :: 0 <= i < |entries| ==> Gone(f, entries[i])
  }

  ghost predicate NoTrash(f: Files, entries: seq<Artifact>) {
    forall i :: 0 <= i < |entries| ==> entries[i].trash !in f
  }

  /** Only the files of one entry may differ between two worlds, apart from consumed faults. */
  ghost predicate OnlyTouches(w: World, w': World, a: Artifact) {
    w'.journal == w.journal && w'.roms == w.roms && w'.committed == w.committed &&
    (forall at :: at !in Footprint(a) ==> Same(w.files, w'.files, at))
  }

  /** The places of these entries. */
  function Area(entries: seq<Artifact>): set<Location> {
    set a, at | a in entries && at in Footprint(a) :: at
  }

  ghost predicate OnlyFiles(f: Files, g: Files, entries: seq<Artifact>) {
    forall at :: at !in Area(entries) ==> Same(f, g, at)
  }

  lemma TouchesArea(w: World, w': World, entries: seq<Artifact>, i: nat)
    requires i < |entries| && OnlyTouches(w, w', entries[i])
    ensures OnlyFiles(w.files, w'.files, entries)
  {
    assert entries[i] in entries;
    forall at | at !in Area(entries) ensures Same(w.files, w'.files, at) {
      assert at !in Footprint(entries[i]);
    }
  }

  lemma OnlyFilesTransitive(f: Files, g: Files, h: Files, entries: seq<Artifact>)
    requires OnlyFiles(f, g, entries) && OnlyFiles(g, h, entries)
    ensures OnlyFiles(f, h, entries)
  {
    forall at | at !in Area(entries) ensures Same(f, h, at) {
      assert Same(f, g, at) && Same(g, h, at);
    }
  }

  ghost predicate SameRows(w: World, w': World) {
    w'.journal == w.journal && w'.roms == w.roms && w'.committed == w.committed
  }

  lemma OthersKeep(w: World, w': World, before: Files, entries: seq<Artifact>, i: nat, j: nat)
    requires i < |entries| && j < |entries| && i != j && Separate(entries) && OnlyTouches(w, w', entries[i])
    ensures Kept(w.files, before, entries[j]) == Kept(w'.files, before, entries[j])
    ensures Homed(w.files, before, entries[j]) == Homed(w'.files, before, entries[j])
    ensures HeldHere(w.files, entries[j]) == HeldHere(w'.files, entries[j])
    ensures Trashed(w.files, before, entries[j]) == Trashed(w'.files, before, entries[j])
    ensures Leaving(w.files, entries[j]) == Leaving(w'.files, entries[j])
    ensures Gone(w.files, entries[j]) == Gone(w'.files, entries[j])
  {
    var b := entries[j];
    assert b.original in Footprint(b) && b.trash in Footprint(b);
    assert Same(w.files, w'.files, b.original) && Same(w.files, w'.files, b.trash);
  }

  lemma MovableIs(f: Files, before: Files, a: Artifact)
    ensures Movable(f, before, a) <==> Homed(f, before, a) && HeldHere(f, a)
  {
  }

  /** One move between the two places of an artifact. */
  lemma MoveOne(w: World, a: Artifact, source: Location, target: Location, before: Files)
    requires a.original != a.trash && Homed(w.files, before, a)
    requires (source == a.original && target == a.trash) || (source == a.trash && target == a.original)
    ensures var r := MoveArtifact(w, a, source, target);
      && OnlyTouches(w, r.world, a) && Homed(r.world.files, before, a)
      && (HeldHere(r.world.files, a) <==> HeldHere(w.files, a))
      && (r.Done? ==> source !in r.world.files && target in r.world.files)
      && (w.faults == [] && source in w.files ==> r.Done? && r.world.faults == [])
  {
  }

  /** A move to trash or back leaves the artifact in exactly one of its places, whatever happens. */
  lemma MoveSafe(w: World, a: Artifact, back: bool, before: Files)
    requires a.original != a.trash && Movable(w.files, before, a)
    ensures var r := if back then MoveArtifact(w, a, a.trash, a.original) else MoveArtifact(w, a, a.original, a.trash);
      && OnlyTouches(w, r.world, a) && Movable(r.world.files, before, a)
      && (r.Done? ==> if back then Kept(r.world.files, before, a) else Trashed(r.world.files, before, a))
  {
    MovableIs(w.files, before, a);
    if back {
      MoveOne(w, a, a.trash, a.original, before);
      MovableIs(MoveArtifact(w, a, a.trash, a.original).world.files, before, a);
    } else {
      MoveOne(w, a, a.original, a.trash, before);
      MovableIs(MoveArtifact(w, a, a.original, a.trash).world.files, before, a);
    }
  }

  lemma {:induction false} RestoreSafe(w: World, entries: seq<Artifact>, n: nat, before: Files)
    requires n <= |entries| && Separate(entries) && AllMovable(w.files, before, entries)
    ensures var r := Restore(w, entries, n);
      && SameRows(w, r.world) && AllMovable(r.world.files, before, entries) && !r.Error?
      && OnlyFiles(w.files, r.world.files, entries)
    decreases n
  {
    if n > 0 {
      var a := entries[n - 1];
      MoveSafe(w, a, true, before);
      var r := MoveArtifact(w, a, a.trash, a.original);
      TouchesArea(w, r.world, entries, n - 1);
      forall j | 0 <= j < |entries| ensures Movable(r.world.files, before, entries[j]) {
        if j != n - 1 {
          OthersKeep(w, r.world, before, entries, n - 1, j);
          assert Movable(w.files, before, entries[j]);
        }
      }
      if !r.Crashed? {
        RestoreSafe(r.world, entries, n - 1, before);
        OnlyFilesTransitive(w.files, r.world.files, Restore(w, entries, n).world.files, entries);
      }
    }
  }

  /** The rows and the journal after a failure before the commit. */
  ghost predicate StillPending(w: World, w': World, id: string) {
    w'.roms == w.roms && w'.committed == w.committed && id in w'.journal && w'.journal[id] in {Prepared, Failed} &&
    w'.journal.Keys == w.journal.Keys &&
    (forall other :: other in w.journal && other != id ==> w'.journal[other] == w.journal[other])
  }

  lemma FailingStaysPending(w: World, id: string)
    requires id in w.journal && w.journal[id] == Prepared
    ensures var r := SetState(w, id, Failed); StillPending(w, r.world, id) && r.world.files == w.files
  {
  }

  lemma RestoreAndFailSafe(w: World, id: string, entries: seq<Artifact>, n: nat, why: Reason, before: Files)
    requires n <= |entries| && Separate(entries) && AllMovable(w.files, before, entries)
    requires id in w.journal && w.journal[id] == Prepared
    ensures var r := RestoreAndFail(w, id, entries, n, why);
      && StillPending(w, r.world, id) && AllMovable(r.world.files, before, entries) && !r.Done?
      && OnlyFiles(w.files, r.world.files, entries)
  {
    RestoreSafe(w, entries, n, before);
    var restored := Restore(w, entries, n);
    if restored.Done? {
      FailingStaysPending(restored.world, id);
    }
  }

  lemma {:induction false} MoveEntriesSafe(w: World, id: string, entries: seq<Artifact>, i: nat, before: Files)
    requires i <= |entries| && Separate(entries) && id in w.journal && w.journal[id] == Prepared
    requires forall j :: 0 <= j < i ==> Trashed(w.files, before, entries[j])
    requires forall j :: i <= j < |entries| ==> Kept(w.files, before, entries[j])
    ensures var r := MoveEntries(w, id, entries, i);
      && StillPending(w, r.world, id) && AllMovable(r.world.files, before, entries)
      && OnlyFiles(w.files, r.world.files, entries)
      && (r.Done? ==> r.world.journal == w.journal &&
                      forall j :: 0 <= j < |entries| ==> Trashed(r.world.files, before, entries[j]))
    decreases |entries| - i
  {
    if i < |entries| {
      var a := entries[i];
      MoveSafe(w, a, false, before);
      var r := MoveArtifact(w, a, a.original, a.trash);
      forall j | 0 <= j < |entries| && j != i
        ensures Trashed(r.world.files, before, entries[j]) == Trashed(w.files, before, entries[j])
        ensures Kept(r.world.files, before, entries[j]) == Kept(w.files, before, entries[j])
      {
        OthersKeep(w, r.world, before, entries, i, j);
      }
      TouchesArea(w, r.world, entries, i);
      if r.Done? {
        MoveEntriesSafe(r.world, id, entries, i + 1, before);
      } else if r.Error? {
        RestoreAndFailSafe(r.world, id, entries, i, r.reason, before);
      }
      OnlyFilesTransitive(w.files, r.world.files, MoveEntries(w, id, entries, i).world.files, entries);
    }
  }

  lemma RemoveTrashSafe(w: World, a: Artifact)
    requires a.original != a.trash && Leaving(w.files, a)
    ensures var r := RemoveTrash(w, a);
      && OnlyTouches(w, r.world, a) && Leaving(r.world.files, a) && (r.Done? ==> Gone(r.world.files, a))
  {
  }

  lemma RemoveTrashStep(w: World, entries: seq<Artifact>, i: nat)
    requires i < |entries| && Separate(entries) && AllLeaving(w.files, entries)
    ensures var r := RemoveTrash(w, entries[i]);
      && SameRows(w, r.world) && AllLeaving(r.world.files, entries)
      && OnlyFiles(w.files, r.world.files, entries)
      && (r.Done? ==> Gone(r.world.files, entries[i]))
      && (forall j :: 0 <= j < |entries| && Gone(w.files, entries[j]) ==> Gone(r.world.files, entries[j]))
  {
    RemoveTrashSafe(w, entries[i]);
    var r := RemoveTrash(w, entries[i]);
    TouchesArea(w, r.world, entries, i);
    forall j | 0 <= j < |entries|
      ensures Leaving(r.world.files, entries[j])
      ensures Gone(w.files, entries[j]) ==> Gone(r.world.files, entries[j])
    {
      assert Leaving(w.files, entries[j]);
      if j != i {
        OthersKeep(w, r.world, map[], entries, i, j);
      }
    }
  }

  lemma {:induction false} DropAllSafe(w: World, entries: seq<Artifact>, i: nat, clean: bool)
    requires i <= |entries| && Separate(entries) && AllLeaving(w.files, entries)
    requires clean ==> forall j :: 0 <= j < i ==> Gone(w.files, entries[j])
    ensures var r := DropAll(w, entries, i, clean);
      && SameRows(w, r.world) && AllLeaving(r.world.files, entries) && !r.Error?
      && OnlyFiles(w.files, r.world.files, entries)
      && (r.Done? && r.value ==> AllGone(r.world.files, entries))
    decreases |entries| - i
  {
    if i < |entries| {
      RemoveTrashStep(w, entries, i);
      var r := RemoveTrash(w, entries[i]);
      if !r.Crashed? {
        DropAllSafe(r.world, entries, i + 1, clean && r.Done?);
        OnlyFilesTransitive(w.files, r.world.files, DropAll(w, entries, i, clean).world.files, entries);
      }
    }
  }

  lemma {:induction false} DropTrashSafe(w: World, entries: seq<Artifact>, i: nat)
    requires i <= |entries| && Separate(entries) && AllLeaving(w.files, entries)
    requires forall j :: 0 <= j < i ==> Gone(w.files, entries[j])
    ensures var r := DropTrash(w, entries, i);
      && SameRows(w, r.world) && AllLeaving(r.world.files, entries) && OnlyFiles(w.files, r.world.files, entries)
      && (r.Done? ==> AllGone(r.world.files, entries))
    decreases |entries| - i
  {
    if i < |entries| {
      RemoveTrashStep(w, entries, i);
      var r := RemoveTrash(w, entries[i]);
      if r.Done? {
        DropTrashSafe(r.world, entries, i + 1);
        OnlyFilesTransitive(w.files, r.world.files, DropTrash(w, entries, i).world.files, entries);
      }
    }
  }

  lemma PutBackSafe(w: World, a: Artifact, before: Files)
    requires a.original != a.trash && Homed(w.files, before, a)
    ensures var r := PutBack(w, a);
      && OnlyTouches(w, r.world, a) && Homed(r.world.files, before, a)
      && (HeldHere(r.world.files, a) <==> HeldHere(w.files, a))
      && (r.Done? ==> Kept(r.world.files, before, a))
      && (w.faults == [] && HeldHere(w.files, a) ==> r.Done? && r.world.faults == [])
  {
    var r1 := Exists(w, a.trash);
    if r1.Done? {
      var r2 := Exists(r1.world, a.original);
      if r2.Done? && a.trash in w.files && a.original !in w.files {
        MoveOne(r2.world, a, a.trash, a.original, before);
      }
    }
  }

  ghost predicate AllHomed(f: Files, before: Files, entries: seq<Artifact>) {
    forall i :: 0 <= i < |entries| ==> Homed(f, before, entries[i])
  }

  /** Between two states every artifact stays with this delete, or stays with another one. */
  ghost predicate SameHeld(f: Files, g: Files, entries: seq<Artifact>) {
    forall i :: 0 <= i < |entries| ==> (HeldHere(f, entries[i]) <==> HeldHere(g, entries[i]))
  }

  lemma HomedStaysMovable(f: Files, g: Files, before: Files, entries: seq<Artifact>)
    requires AllMovable(f, before, entries) && AllHomed(g, before, entries) && SameHeld(f, g, entries)
    ensures AllMovable(g, before, entries)
  {
    forall i | 0 <= i < |entries| ensures Movable(g, before, entries[i]) {
      MovableIs(f, before, entries[i]);
      MovableIs(g, before, entries[i]);
    }
  }

  lemma MovableIsHomed(f: Files, before: Files, entries: seq<Artifact>)
    requires AllMovable(f, before, entries)
    ensures AllHomed(f, before, entries) && forall i :: 0 <= i < |entries| ==> HeldHere(f, entries[i])
  {
    forall i | 0 <= i < |entries| ensures Homed(f, before, entries[i]) && HeldHere(f, entries[i]) {
      MovableIs(f, before, entries[i]);
    }
  }

  lemma PutBackStep(w: World, entries: seq<Artifact>, i: nat, before: Files)
    requires i < |entries| && Separate(entries) && AllHomed(w.files, before, entries)
    ensures var r := PutBack(w, entries[i]);
      && SameRows(w, r.world) && AllHomed(r.world.files, before, entries) && SameHeld(w.files, r.world.files, entries)
      && OnlyFiles(w.files, r.world.files, entries)
      && (r.Done? ==> Kept(r.world.files, before, entries[i]))
      && (forall j :: 0 <= j < |entries| && j != i && Kept(w.files, before, entries[j]) ==>
            Kept(r.world.files, before, entries[j]))
  {
    PutBackSafe(w, entries[i], before);
    var r := PutBack(w, entries[i]);
    TouchesArea(w, r.world, entries, i);
    forall j | 0 <= j < |entries| && j != i
      ensures Homed(r.world.files, before, entries[j])
      ensures HeldHere(w.files, entries[j]) <==> HeldHere(r.world.files, entries[j])
      ensures Kept(w.files, before, entries[j]) ==> Kept(r.world.files, before, entries[j])
    {
      OthersKeep(w, r.world, before, entries, i, j);
      assert Homed(w.files, before, entries[j]);
    }
  }

  lemma SameHeldTransitive(f: Files, g: Files, h: Files, entries: seq<Artifact>)
    requires SameHeld(f, g, entries) && SameHeld(g, h, entries)
    ensures SameHeld(f, h, entries)
  {
  }

  /** Putting back, interrupted anywhere, loses nothing and takes nothing from another delete. */
  lemma {:induction false} PutAllBackSafe(w: World, entries: seq<Artifact>, i: nat, before: Files)
    requires i <= |entries| && Separate(entries) && AllHomed(w.files, before, entries)
    requires forall j :: 0 <= j < i ==> Kept(w.files, before, entries[j])
    ensures var r := PutAllBack(w, entries, i);
      && SameRows(w, r.world) && AllHomed(r.world.files, before, entries) && SameHeld(w.files, r.world.files, entries)
      && OnlyFiles(w.files, r.world.files, entries)
      && (r.Done? ==> AllKept(r.world.files, before, entries))
    decreases |entries| - i
  {
    if i < |entries| {
      PutBackStep(w, entries, i, before);
      var r := PutBack(w, entries[i]);
      if r.Done? {
        PutAllBackSafe(r.world, entries, i + 1, before);
        OnlyFilesTransitive(w.files, r.world.files, PutAllBack(w, entries, i).world.files, entries);
        SameHeldTransitive(w.files, r.world.files, PutAllBack(w, entries, i).world.files, entries);
      }
    }
  }

  ghost predicate CountsRows(w: World, roms: seq<int>, present: nat) {
    present <= |roms| &&
    (present == 0 <==> forall j :: 0 <= j < |roms| ==> roms[j] !in w.roms) &&
    (present == |roms| <==> forall j :: 0 <= j < |roms| ==> roms[j] in w.roms)
  }

  /** Counting stops at 0 exactly when no listed row is left, and at the length exactly when all are. */
  lemma {:induction false} CountRowsMeans(w: World, roms: seq<int>, i: nat, present: nat)
    requires i <= |roms| && present <= i
    requires present == 0 <==> forall j :: 0 <= j < i ==> roms[j] !in w.roms
    requires present == i <==> forall j :: 0 <= j < i ==> roms[j] in w.roms
    ensures var r := CountRows(w, roms, i, present);
      && SameRows(w, r.world) && r.world.files == w.files
      && (r.Done? ==> CountsRows(w, roms, r.value))
    decreases |roms| - i
  {
    if i < |roms| {
      var r := RomExists(w, roms[i]);
      if r.Done? {
        CountRowsMeans(r.world, roms, i + 1, if r.value then present + 1 else present);
      }
    }
  }

  // ---------- undisturbed recovery ----------

  lemma {:induction false} PutAllBackCompletes(w: World, entries: seq<Artifact>, i: nat, before: Files)
    requires i <= |entries| && Separate(entries) && AllMovable(w.files, before, entries) && w.faults == []
    ensures PutAllBack(w, entries, i).Done?
    decreases |entries| - i
  {
    if i < |entries| {
      MovableIsHomed(w.files, before, entries);
      PutBackStep(w, entries, i, before);
      PutBackSafe(w, entries[i], before);
      var r := PutBack(w, entries[i]);
      HomedStaysMovable(w.files, r.world.files, before, entries);
      PutAllBackCompletes(r.world, entries, i + 1, before);
    }
  }

  lemma {:induction false} DropTrashCompletes(w: World, entries: seq<Artifact>, i: nat)
    requires i <= |entries| && Separate(entries) && AllLeaving(w.files, entries) && w.faults == []
    ensures DropTrash(w, entries, i).Done?
    decreases |entries| - i
  {
    if i < |entries| {
      RemoveTrashStep(w, entries, i);
      assert RemoveTrash(w, entries[i]).Done?;
      DropTrashCompletes(RemoveTrash(w, entries[i]).world, entries, i + 1);
    }
  }

  lemma {:induction false} CountRowsCompletes(w: World, roms: seq<int>, i: nat, present: nat)
    requires i <= |roms| && w.faults == []
    ensures CountRows(w, roms, i, present).Done? && CountRows(w, roms, i, present).world == w
    decreases |roms| - i
  {
    if i < |roms| {
      CountRowsCompletes(w, roms, i + 1, if roms[i] in w.roms then present + 1 else present);
    }
  }

  // ---------- recovery after the fact ----------

  /** Without trash, recovery can do nothing to the files. */
  lemma {:induction false} DropTrashIdle(w: World, entries: seq<Artifact>, i: nat)
    requires i <= |entries| && NoTrash(w.files, entries)
    ensures var r := DropTrash(w, entries, i); SameRows(w, r.world) && r.world.files == w.files
    decreases |entries| - i
  {
    if i < |entries| {
      var r := RemoveTrash(w, entries[i]);
      assert r.world.files == w.files;
      if r.Done? {
        DropTrashIdle(r.world, entries, i + 1);
      }
    }
  }

  lemma {:induction false} PutAllBackIdle(w: World, entries: seq<Artifact>, i: nat)
    requires i <= |entries| && NoTrash(w.files, entries)
    ensures var r := PutAllBack(w, entries, i); SameRows(w, r.world) && r.world.files == w.files
    decreases |entries| - i
  {
    if i < |entries| {
      var r := PutBack(w, entries[i]);
      assert SameRows(w, r.world) && r.world.files == w.files;
      if r.Done? {
        PutAllBackIdle(r.world, entries, i + 1);
      }
    }
  }

  lemma RecoverIdle(w: World, listed: FileOperationState, op: DeleteOperation)
    requires NoTrash(w.files, op.entries)
    ensures var r := Recover(w, listed, op); SameRows(w, r.world) && r.world.files == w.files
  {
    CountRowsMeans(w, op.roms, 0, 0);
    var r := CountRows(w, op.roms, 0, 0);
    DropTrashIdle(r.world, op.entries, 0);
    DropTrashIdle(w, op.entries, 0);
    PutAllBackIdle(r.world, op.entries, 0);
    PutAllBackIdle(w, op.entries, 0);
  }
}
