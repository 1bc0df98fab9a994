/** How cover replacements end: undisturbed, without their ROM, and what the caller may conclude from an answer. */
module CoverOutcomes {
  import opened Basics
  import opened Storage
  import opened Covers
  import opened CoverSafety
  import opened CoverRuns

  /** What a replacement may start from: a fresh id and a sound plan. */
  ghost predicate Startable(w: World, root: string, id: string, op: CoverOperation) {
    id !in w.journal && id !in w.committed && WellTyped(op) && NoRepeats(op.Slots()) && Separate(op.Slots()) &&
    forall s :: s in op.Slots() ==> Planned(w.files, root, s)
  }

  lemma StagedUndisturbed(w: World, root: string, id: string, op: CoverOperation)
    requires w.faults == [] && Startable(w, root, id, op)
    ensures var w1 := CreateRow(w, id).world;
      var r := Stage(w1, root, op);
      && r.Done? && r.world == w.(files := r.world.files, journal := w.journal[id := Prepared])
      && OnlyTouches(w.files, r.world.files, root, op.Slots())
      && AllReplaced(r.world.files, w.files, root, op.Slots())
      && AllRecoverable(r.world.files, w.files, root, op.Slots())
  {
    var w1 := CreateRow(w, id).world;
    StageSafe(w1, root, op);
    StagedIsReplaced(Stage(w1, root, op).world.files, w.files, root, op.Slots());
  }

  /**
   Undisturbed, a replacement for a ROM that exists succeeds: its row is completed and committed, every
   new file is in place, every obsolete cover and every backup is gone, and nothing else has changed.
   */
  lemma UndisturbedReplace(w: World, root: string, id: string, op: CoverOperation)
    requires w.faults == [] && Startable(w, root, id, op) && op.rom in w.roms
    ensures var r := Replace(w, root, id, op);
      && r == Done(w.(files := r.world.files, journal := w.journal[id := Completed],
                      committed := w.committed + {id}), ())
      && AllFinal(r.world.files, root, op.Slots()) && OnlyTouches(w.files, r.world.files, root, op.Slots())
  {
    StagedUndisturbed(w, root, id, op);
    var staged := Stage(CreateRow(w, id).world, root, op).world;
    var saved := CommitCover(staged, id, op.rom).world;
    CleanupSafe(saved, root, op, w.files);
    ReplaceSafe(w, root, id, op);
    assert w.journal[id := Prepared][id := DbCommitted][id := Completed] == w.journal[id := Completed];
  }

  lemma UndoneIsBefore(w: World, root: string, op: CoverOperation, before: Files)
    requires w.faults == [] && Separate(op.Slots()) && AllRecoverable(w.files, before, root, op.Slots())
    requires forall s :: s in op.Slots() ==> Planned(before, root, s)
    requires OnlyTouches(before, w.files, root, op.Slots())
    ensures Rollback(w, root, op) == Done(w.(files := before), ())
  {
    RollbackIsCrashSafe(w, root, op, before, []);
    assert Attempts(w, root, op, []).(faults := []) == w;
    RollbackSafe(w, root, op, before);
    var r := Rollback(w, root, op);
    assert r.world == World(before, w.journal, w.roms, w.committed, []);
    assert r.value == ();
  }

  /** Undisturbed, a replacement for a ROM that is gone fails with the files as before, and is completed. */
  lemma ReplaceWithoutRom(w: World, root: string, id: string, op: CoverOperation)
    requires w.faults == [] && Startable(w, root, id, op) && op.rom !in w.roms
    ensures Replace(w, root, id, op) == Error(w.(journal := w.journal[id := Completed]), RowNotFound)
  {
    StagedUndisturbed(w, root, id, op);
    var staged := Stage(CreateRow(w, id).world, root, op).world;
    UndoneIsBefore(staged, root, op, w.files);
    assert w.journal[id := Prepared][id := Completed] == w.journal[id := Completed];
  }

  lemma FinishSucceeds(w: World, root: string, id: string, op: CoverOperation, before: Files)
    requires WellTyped(op) && Separate(op.Slots()) && AllReplaced(w.files, before, root, op.Slots())
    requires id in w.journal && w.journal[id] == DbCommitted && Finish(w, root, id, op).Done?
    ensures var w' := Finish(w, root, id, op).world;
      && w'.committed == w.committed && w'.roms == w.roms
      && id in w'.journal && w'.journal[id] in {Completed, CleanupPending}
      && AllReplaced(w'.files, before, root, op.Slots())
      && (w'.journal[id] == Completed ==> AllFinal(w'.files, root, op.Slots()))
  {
    CleanupSafe(w, root, op, before);
  }

  /**
   What an answer means under any fault schedule: success only after the commit, with all new files in
   place and the row completed or waiting for its cleanup.
   */
  lemma SuccessMeansReplaced(w: World, root: string, id: string, op: CoverOperation)
    requires Startable(w, root, id, op) && Replace(w, root, id, op).Done?
    ensures var w' := Replace(w, root, id, op).world;
      && id in w'.committed && id in w'.journal && w'.journal[id] in {Completed, CleanupPending} && op.rom in w'.roms
      && (forall s :: s in op.Slots() ==> HasNew(w'.files, root, s))
      && (w'.journal[id] == Completed ==> AllFinal(w'.files, root, op.Slots()))
  {
    var w1 := CreateRow(w, id).world;
    StageSafe(w1, root, op);
    var staged := Stage(w1, root, op);
    StagedIsReplaced(staged.world.files, w.files, root, op.Slots());
    FinishSucceeds(CommitCover(staged.world, id, op.rom).world, root, id, op, w.files);
  }

  /** One undisturbed recovery of an operation whose ROM is gone removes its files and completes it. */
  lemma RecoveryDiscards(w: World, root: string, id: string, op: CoverOperation)
    requires w.faults == [] && id in w.journal && w.journal[id] != Completed && op.rom !in w.roms
    requires forall at :: InArea(root, op.Slots(), at) && at in w.files ==> w.files[at].File?
    ensures var r := Reconcile(w, root, id, op);
      && r == Done(w.(files := r.world.files, journal := w.journal[id := Completed]), ())
      && (forall s :: s in op.Slots() ==> Gone(r.world.files, root, s))
      && OnlyTouches(w.files, r.world.files, root, op.Slots())
  {
    SlotOrder(op);
    SameArea(root, op);
    DiscardSafe(w, root, op);
    DiscardCompletes(w, root, op.entries + op.obsolete, 0);
  }

  lemma SameArea(root: string, op: CoverOperation)
    ensures forall at :: InArea(root, op.entries + op.obsolete, at) ==> InArea(root, op.Slots(), at)
  {
  }

  ghost predicate Removable(f: Files, root: string, slots: seq<Slot>) {
    forall at :: InArea(root, slots, at) && at in f ==> f[at].File?
  }

  lemma RemovingCompletes(w: World, root: string, slots: seq<Slot>, s: Slot, path: string)
    requires w.faults == [] && Removable(w.files, root, slots) && s in slots && path in Footprint(s)
    ensures var r := Remove(w, Location(root, path));
      r.Done? && r.world.faults == [] && Removable(r.world.files, root, slots)
  {
    assert Within(root, s, Location(root, path));
  }

  lemma {:induction false} DiscardCompletes(w: World, root: string, slots: seq<Slot>, i: nat)
    requires w.faults == [] && i <= |slots| && Removable(w.files, root, slots)
    ensures DiscardSlots(w, root, slots, i).Done? && DiscardSlots(w, root, slots, i).world.faults == []
    decreases |slots| - i
  {
    if i < |slots| {
      var s := slots[i];
      RemovingCompletes(w, root, slots, s, s.path);
      var w1 := Remove(w, Location(root, s.path)).world;
      if s.backup.None? {
        DiscardCompletes(w1, root, slots, i + 1);
      } else {
        RemovingCompletes(w1, root, slots, s, s.backup.value);
        DiscardCompletes(Remove(w1, Location(root, s.backup.value)).world, root, slots, i + 1);
      }
    }
  }

  // ---------- refusals ----------

  /** A slot whose files cannot be told apart, or are both missing, is refused and left as it is. */
  lemma RollbackRefuses(w: World, root: string, s: Slot)
    requires w.faults == [] && s.backup.Some?
    ensures var here, there := Location(root, s.path) in w.files, Location(root, s.backup.value) in w.files;
      && (here && there && s.Obsolete? ==> RollbackSlot(w, root, s) == Error(w, AmbiguousArtifact))
      && (!here && !there ==> RollbackSlot(w, root, s) == Error(w, MissingArtifact))
      && (here && !there ==> RollbackSlot(w, root, s) == Done(w, ()))
  {
  }

  /** A row that has disappeared is an error, and nothing is touched. */
  lemma MissingRowIsRefused(w: World, root: string, id: string, op: CoverOperation)
    requires w.faults == [] && id !in w.journal
    ensures Reconcile(w, root, id, op) == Error(w, JournalRowDisappeared)
  {
  }

  lemma {:induction false} VerifyingNeedsAll(w: World, root: string, entries: seq<Slot>, i: nat, j: nat)
    requires i <= j < |entries| && Location(root, entries[j].path) !in w.files
    ensures var r := VerifyEntries(w, root, entries, i); !r.Done? && r.world.files == w.files
    decreases j - i
  {
    var r := Exists(w, Location(root, entries[i].path));
    if i < j && r.Done? && r.value {
      VerifyingNeedsAll(r.world, root, entries, i + 1, j);
    }
  }

  /** While a replacement file is missing no cleanup succeeds, and none drops a backup, under any faults. */
  lemma CleanupNeedsEveryFile(w: World, root: string, op: CoverOperation, s: Slot)
    requires s in op.entries && Location(root, s.path) !in w.files
    ensures !Cleanup(w, root, op).Done? && Cleanup(w, root, op).world.files == w.files
  {
    var j :| 0 <= j < |op.entries| && op.entries[j] == s;
    VerifyingNeedsAll(w, root, op.entries, 0, j);
  }

  // ---------- the order of the steps ----------

  /** The first `k` slots are done, and none but the next one has been begun. */
  ghost predicate DoneUpTo(f: Files, before: Files, root: string, slots: seq<Slot>, k: nat) {
    k <= |slots| && (forall j :: 0 <= j < k ==> Staged(f, before, root, slots[j])) &&
    (forall j :: k <= j < |slots| ==> Original(f, before, root, slots[j]))
  }

  ghost predicate StoppedAt(f: Files, before: Files, root: string, slots: seq<Slot>, k: nat) {
    k <= |slots| && (forall j :: 0 <= j < k ==> Staged(f, before, root, slots[j])) &&
    (forall j :: k < j < |slots| ==> Original(f, before, root, slots[j]))
  }

  lemma OneSlotOn(f: Files, g: Files, before: Files, root: string, slots: seq<Slot>, k: nat)
    requires NoRepeats(slots) && Separate(slots) && k < |slots| && DoneUpTo(f, before, root, slots, k)
    requires OnlyTouchesSlot(f, g, root, slots[k])
    ensures StoppedAt(g, before, root, slots, k)
    ensures Staged(g, before, root, slots[k]) ==> DoneUpTo(g, before, root, slots, k + 1)
  {
    forall j | 0 <= j < |slots| && j != k
      ensures Staged(g, before, root, slots[j]) == Staged(f, before, root, slots[j])
      ensures Original(g, before, root, slots[j]) == Original(f, before, root, slots[j])
    {
      assert slots[j] in slots && slots[k] in slots && slots[j] != slots[k];
      OtherSlotsKeep(f, g, before, root, slots, slots[k], slots[j]);
    }
  }

  lemma {:induction false} MovingStops(w: World, root: string, op: CoverOperation, i: nat, before: Files)
    returns (k: nat)
    requires i <= |op.obsolete| && WellTyped(op) && NoRepeats(op.Slots()) && Separate(op.Slots())
    requires forall s :: s in op.Slots() ==> Planned(before, root, s)
    requires DoneUpTo(w.files, before, root, op.Slots(), i)
    ensures var r := MoveObsolete(w, root, op.obsolete, i);
      && k <= |op.obsolete| && StoppedAt(r.world.files, before, root, op.Slots(), k)
      && (r.Done? ==> k == |op.obsolete| && DoneUpTo(r.world.files, before, root, op.Slots(), k))
    decreases |op.obsolete| - i
  {
    k := i;
    if i < |op.obsolete| {
      var s := op.obsolete[i];
      assert s == op.Slots()[i] && s in op.Slots();
      MoveObsoleteSlot(w, root, s, before);
      var r := MoveManaged(w, Location(root, s.path), Location(root, s.backup.value));
      OneSlotOn(w.files, r.world.files, before, root, op.Slots(), i);
      if r.Done? {
        k := MovingStops(r.world, root, op, i + 1, before);
      }
    }
  }

  lemma {:induction false} StagingStops(w: World, root: string, op: CoverOperation, i: nat, before: Files)
    returns (k: nat)
    requires i <= |op.entries| && WellTyped(op) && NoRepeats(op.Slots()) && Separate(op.Slots())
    requires forall s :: s in op.Slots() ==> Planned(before, root, s)
    requires DoneUpTo(w.files, before, root, op.Slots(), |op.obsolete| + i)
    ensures var r := StageEntries(w, root, op.entries, i);
      StoppedAt(r.world.files, before, root, op.Slots(), k) && (r.Done? ==> k == |op.Slots()|)
    decreases |op.entries| - i
  {
    k := |op.obsolete| + i;
    if i < |op.entries| {
      var s := op.entries[i];
      assert s == op.Slots()[k] && s in op.Slots();
      StageSlot(w, root, s, before);
      var r := StageEntry(w, root, s);
      OneSlotOn(w.files, r.world.files, before, root, op.Slots(), k);
      if r.Done? {
        k := StagingStops(r.world, root, op, i + 1, before);
      }
    }
  }

  /**
   Wherever staging stops, it has gone through the obsolete covers and then the replacements in order: up
   to some slot all are staged, and after that slot all are as before.
   */
  lemma StagingGoesInOrder(w: World, root: string, op: CoverOperation) returns (k: nat)
    requires WellTyped(op) && NoRepeats(op.Slots()) && Separate(op.Slots())
    requires forall s :: s in op.Slots() ==> Planned(w.files, root, s)
    ensures var r := Stage(w, root, op);
      StoppedAt(r.world.files, w.files, root, op.Slots(), k) && (r.Done? ==> k == |op.Slots()|)
  {
    forall j | 0 <= j < |op.Slots()| ensures Original(w.files, w.files, root, op.Slots()[j]) {
      assert op.Slots()[j] in op.Slots();
    }
    k := MovingStops(w, root, op, 0, w.files);
    var r := MoveObsolete(w, root, op.obsolete, 0);
    if r.Done? {
      k := StagingStops(r.world, root, op, 0, w.files);
    }
  }

  lemma SameSlotStays(f: Files, g: Files, before: Files, root: string, s: Slot)
    requires SameSlot(f, g, root, s) && Original(f, before, root, s)
    ensures Original(g, before, root, s)
  {
  }

  lemma RollbackOne(w: World, root: string, slots: seq<Slot>, i: nat, before: Files)
    requires i < |slots| && NoRepeats(slots) && Separate(slots) && AllRecoverable(w.files, before, root, slots)
    ensures var r := RollbackSlot(w, root, slots[i]);
      && (forall j :: 0 <= j < |slots| && j != i ==> SameSlot(w.files, r.world.files, root, slots[j]))
      && AllRecoverable(r.world.files, before, root, slots)
      && (r.Done? ==> Original(r.world.files, before, root, slots[i]))
  {
    var s := slots[i];
    RollbackSlotSafe(w, root, s, before);
    var r := RollbackSlot(w, root, s);
    forall j | 0 <= j < |slots| && j != i
      ensures SameSlot(w.files, r.world.files, root, slots[j]) && Recoverable(r.world.files, before, root, slots[j])
    {
      UntouchedSlot(w.files, r.world.files, before, root, slots, i, j);
    }
    AllByIndex(r.world.files, before, root, slots);
  }

  /** The slots from `k` up to `n` are undone, the one before `k` may have been begun, and all others are untouched. */
  ghost predicate UndoneFrom(f: Files, g: Files, before: Files, root: string, slots: seq<Slot>, k: nat, n: nat) {
    k <= n <= |slots| && (forall j :: k <= j < n ==> Original(g, before, root, slots[j])) &&
    forall j :: 0 <= j < |slots| && (j < k - 1 || n <= j) ==> SameSlot(f, g, root, slots[j])
  }

  lemma UndoneOneMore(f: Files, g: Files, h: Files, before: Files, root: string, slots: seq<Slot>, k: nat, n: nat)
    requires 0 < n <= |slots| && k <= n - 1 && UndoneFrom(g, h, before, root, slots, k, n - 1)
    requires Original(g, before, root, slots[n - 1])
    requires forall j :: 0 <= j < |slots| && j != n - 1 ==> SameSlot(f, g, root, slots[j])
    ensures UndoneFrom(f, h, before, root, slots, k, n)
  {
    assert SameSlot(g, h, root, slots[n - 1]);
    SameSlotStays(g, h, before, root, slots[n - 1]);
    forall j | 0 <= j < |slots| && (j < k - 1 || n <= j) ensures SameSlot(f, h, root, slots[j]) {
      assert SameSlot(f, g, root, slots[j]) && SameSlot(g, h, root, slots[j]);
    }
  }

  /**
   Wherever a rollback stops, it has gone through the slots backwards: after some slot all are as they
   were before the replacement, and before that slot none has been touched.
   */
  lemma {:induction false} RollbackGoesBackwards(w: World, root: string, slots: seq<Slot>, n: nat, before: Files)
    returns (k: nat)
    requires n <= |slots| && NoRepeats(slots) && Separate(slots) && AllRecoverable(w.files, before, root, slots)
    ensures var r := RollbackSlots(w, root, slots, n);
      UndoneFrom(w.files, r.world.files, before, root, slots, k, n) && (r.Done? ==> k == 0)
    decreases n
  {
    k := n;
    if n > 0 {
      var w1, on := RollbackLast(w, root, slots, n, before);
      if on {
        k := RollbackGoesBackwards(w1, root, slots, n - 1, before);
        UndoneOneMore(w.files, w1.files, RollbackSlots(w, root, slots, n).world.files, before, root, slots, k, n);
      }
    }
  }

  /** The slot before `n` is undone and the rollback goes on, or it stops there. */
  lemma RollbackLast(w: World, root: string, slots: seq<Slot>, n: nat, before: Files) returns (w1: World, on: bool)
    requires 0 < n <= |slots| && NoRepeats(slots) && Separate(slots) && AllRecoverable(w.files, before, root, slots)
    ensures forall j :: 0 <= j < |slots| && j != n - 1 ==> SameSlot(w.files, w1.files, root, slots[j])
    ensures AllRecoverable(w1.files, before, root, slots)
    ensures on ==> Original(w1.files, before, root, slots[n - 1]) &&
                   RollbackSlots(w, root, slots, n) == RollbackSlots(w1, root, slots, n - 1)
    ensures !on ==> RollbackSlots(w, root, slots, n).world == w1 && !RollbackSlots(w, root, slots, n).Done?
  {
    var r := RollbackSlot(w, root, slots[n - 1]);
    RollbackOne(w, root, slots, n - 1, before);
    w1, on := r.world, r.Done?;
  }

  lemma AllByIndex(f: Files, before: Files, root: string, slots: seq<Slot>)
    requires forall j :: 0 <= j < |slots| ==> Recoverable(f, before, root, slots[j])
    ensures AllRecoverable(f, before, root, slots)
  {
  }

  lemma UntouchedSlot(f: Files, g: Files, before: Files, root: string, slots: seq<Slot>, i: nat, j: nat)
    requires i < |slots| && j < |slots| && i != j && NoRepeats(slots) && Separate(slots)
    requires OnlyTouchesSlot(f, g, root, slots[i]) && Recoverable(f, before, root, slots[j])
    ensures SameSlot(f, g, root, slots[j]) && Recoverable(g, before, root, slots[j])
  {
    var s, t := slots[i], slots[j];
    assert s in slots && t in slots && s != t;
    OtherSlotsKeep(f, g, before, root, slots, s, t);
    assert t.path in Footprint(t) && Same(f, g, Location(root, t.path));
    if t.backup.Some? {
      assert t.backup.value in Footprint(t) && Same(f, g, Location(root, t.backup.value));
    }
  }

  // ---------- one I/O error ----------

  /** Nothing goes wrong, or one step meets an I/O error and nothing else does. */
  predicate AtMostOne(faults: seq<Fault>)
    decreases |faults|
  {
    faults == [] || (faults[0].IoError? && |faults| == 1) || (faults[0].Proceed? && AtMostOne(faults[1..]))
  }

  /** A run that meets the error stops with it, and nothing can go wrong after that. */
  ghost predicate MeetsError<T>(r: Run<T>) {
    match r
    case Done(w, _) => AtMostOne(w.faults)
    case Error(w, why) => w.faults == [] && why == Io
    case Crashed(_) => false
  }

  lemma SlotMeetsError(w: World, root: string, s: Slot, before: Files)
    requires AtMostOne(w.faults) && (s.backup.Some? ==> s.backup.value != s.path)
    requires Planned(before, root, s) && Original(w.files, before, root, s)
    ensures s.backup.Some? ==>
              MeetsError(MoveManaged(w, Location(root, s.path), Location(root, s.backup.value)))
    ensures s.Replacement? ==> MeetsError(StageEntry(w, root, s))
  {
    if s.backup.Some? {
      var r := MoveManaged(w, Location(root, s.path), Location(root, s.backup.value));
      assert MeetsError(r);
      assert r.Done? ==> Location(root, s.path) !in r.world.files;
    }
  }

  lemma {:induction false} MovingMeetsError(w: World, root: string, op: CoverOperation, i: nat, before: Files)
    requires i <= |op.obsolete| && WellTyped(op) && NoRepeats(op.Slots()) && Separate(op.Slots())
    requires forall s :: s in op.Slots() ==> Planned(before, root, s)
    requires DoneUpTo(w.files, before, root, op.Slots(), i) && AtMostOne(w.faults)
    ensures MeetsError(MoveObsolete(w, root, op.obsolete, i))
    decreases |op.obsolete| - i
  {
    if i < |op.obsolete| {
      var s := op.obsolete[i];
      assert s == op.Slots()[i] && s in op.Slots();
      MoveObsoleteSlot(w, root, s, before);
      SlotMeetsError(w, root, s, before);
      var r := MoveManaged(w, Location(root, s.path), Location(root, s.backup.value));
      if r.Done? {
        OneSlotOn(w.files, r.world.files, before, root, op.Slots(), i);
        MovingMeetsError(r.world, root, op, i + 1, before);
      }
    }
  }

  lemma {:induction false} StagingMeetsError(w: World, root: string, op: CoverOperation, i: nat, before: Files)
    requires i <= |op.entries| && WellTyped(op) && NoRepeats(op.Slots()) && Separate(op.Slots())
    requires forall s :: s in op.Slots() ==> Planned(before, root, s)
    requires DoneUpTo(w.files, before, root, op.Slots(), |op.obsolete| + i) && AtMostOne(w.faults)
    ensures MeetsError(StageEntries(w, root, op.entries, i))
    decreases |op.entries| - i
  {
    if i < |op.entries| {
      var s, k := op.entries[i], |op.obsolete| + i;
      assert s == op.Slots()[k] && s in op.Slots();
      StageSlot(w, root, s, before);
      SlotMeetsError(w, root, s, before);
      var r := StageEntry(w, root, s);
      if r.Done? {
        OneSlotOn(w.files, r.world.files, before, root, op.Slots(), k);
        StagingMeetsError(r.world, root, op, i + 1, before);
      }
    }
  }

  lemma StageMeetsError(w: World, root: string, op: CoverOperation)
    requires AtMostOne(w.faults) && WellTyped(op) && NoRepeats(op.Slots()) && Separate(op.Slots())
    requires forall s :: s in op.Slots() ==> Planned(w.files, root, s)
    ensures MeetsError(Stage(w, root, op))
  {
    forall j | 0 <= j < |op.Slots()| ensures Original(w.files, w.files, root, op.Slots()[j]) {
      assert op.Slots()[j] in op.Slots();
    }
    MovingMeetsError(w, root, op, 0, w.files);
    var k := MovingStops(w, root, op, 0, w.files);
    var r := MoveObsolete(w, root, op.obsolete, 0);
    if r.Done? {
      StagingMeetsError(r.world, root, op, 0, w.files);
    }
  }

  lemma {:induction false} VerifyingMeetsError(w: World, root: string, entries: seq<Slot>, i: nat)
    requires AtMostOne(w.faults) && i <= |entries| && forall s :: s in entries ==> Location(root, s.path) in w.files
    ensures MeetsError(VerifyEntries(w, root, entries, i))
    decreases |entries| - i
  {
    if i < |entries| {
      var r := Exists(w, Location(root, entries[i].path));
      if r.Done? {
        VerifyingMeetsError(r.world, root, entries, i + 1);
      }
    }
  }

  lemma {:induction false} DroppingMeetsError(w: World, root: string, slots: seq<Slot>, i: nat, before: Files)
    requires AtMostOne(w.faults) && i <= |slots| && Separate(slots) && AllReplaced(w.files, before, root, slots)
    ensures MeetsError(DropBackups(w, root, slots, i))
    decreases |slots| - i
  {
    if i < |slots| {
      var s := slots[i];
      assert Replaced(w.files, before, root, s);
      if s.backup.None? {
        DroppingMeetsError(w, root, slots, i + 1, before);
      } else {
        DropBackupStep(w, root, slots, s, before);
        var r := Remove(w, Location(root, s.backup.value));
        assert MeetsError(r);
        if r.Done? {
          DroppingMeetsError(r.world, root, slots, i + 1, before);
        }
      }
    }
  }

  lemma CleanupMeetsError(w: World, root: string, op: CoverOperation, before: Files)
    requires AtMostOne(w.faults) && WellTyped(op) && Separate(op.Slots())
    requires AllReplaced(w.files, before, root, op.Slots())
    ensures MeetsError(Cleanup(w, root, op))
  {
    SlotOrder(op);
    VerifyingMeetsError(w, root, op.entries, 0);
    VerifyEntriesSafe(w, root, op.entries, 0);
    var r := VerifyEntries(w, root, op.entries, 0);
    if r.Done? {
      DroppingMeetsError(r.world, root, op.entries + op.obsolete, 0, before);
    }
  }

  /** After a commit one error in the cleanup leaves it pending; one at the very end leaves only the row behind. */
  lemma FinishWithOneError(w: World, root: string, id: string, op: CoverOperation, before: Files)
    requires AtMostOne(w.faults) && WellTyped(op) && Separate(op.Slots())
    requires AllReplaced(w.files, before, root, op.Slots())
    requires id in w.journal && w.journal[id] == DbCommitted
    ensures var r := Finish(w, root, id, op);
      && AllReplaced(r.world.files, before, root, op.Slots()) && r.world.committed == w.committed
      && (r.Done? || (r.Error? && r.reason == Io && r.world.journal == w.journal &&
                      AllFinal(r.world.files, root, op.Slots())))
  {
    CleanupSafe(w, root, op, before);
    CleanupMeetsError(w, root, op, before);
  }

  /**
   One I/O error, at any step, never leaves a cover half replaced: either the replacement is committed
   with all its new files in place and succeeds, or fails only to write its last state; or it is not, and
   fails with all files as before, without a row or with a completed one.
   */
  lemma ReplaceWithOneError(w: World, root: string, id: string, op: CoverOperation)
    requires AtMostOne(w.faults) && Startable(w, root, id, op) && op.rom in w.roms
    ensures var r := Replace(w, root, id, op);
      var w' := r.world;
      if id in w'.committed then
        (forall s :: s in op.Slots() ==> HasNew(w'.files, root, s)) &&
        (r.Done? || (r.Error? && r.reason == Io && w'.journal == w.journal[id := DbCommitted] &&
                     AllFinal(w'.files, root, op.Slots())))
      else
        r.Error? && r.reason == Io && w'.files == w.files &&
        (w'.journal == w.journal || w'.journal == w.journal[id := Completed])
  {
    var r1 := CreateRow(w, id);
    if r1.Done? {
      StageMeetsError(r1.world, root, op);
      StageSafe(r1.world, root, op);
      var r2 := Stage(r1.world, root, op);
      if r2.Error? {
        RolledBack(r2.world, root, id, op, r2.reason, w);
      } else {
        SavedWithOneError(r2.world, root, id, op, w);
      }
    }
  }

  lemma RolledBack(w: World, root: string, id: string, op: CoverOperation, why: Reason, start: World)
    requires w.faults == [] && w.journal == start.journal[id := Prepared] && w.committed == start.committed
    requires Separate(op.Slots()) && AllRecoverable(w.files, start.files, root, op.Slots())
    requires forall s :: s in op.Slots() ==> Planned(start.files, root, s)
    requires OnlyTouches(start.files, w.files, root, op.Slots())
    ensures var r := RollbackAndRecord(w, root, id, op, why);
      && r == Error(r.world, why) && r.world.files == start.files && r.world.committed == start.committed
      && r.world.journal == start.journal[id := Completed]
  {
    UndoneIsBefore(w, root, op, start.files);
    assert start.journal[id := Prepared][id := Completed] == start.journal[id := Completed];
  }

  lemma SavedWithOneError(w: World, root: string, id: string, op: CoverOperation, start: World)
    requires AtMostOne(w.faults) && w.journal == start.journal[id := Prepared] && w.committed == start.committed
    requires op.rom in w.roms && id !in start.committed
    requires WellTyped(op) && Separate(op.Slots())
    requires forall s :: s in op.Slots() ==> Planned(start.files, root, s)
    requires AllRecoverable(w.files, start.files, root, op.Slots())
    requires forall s :: s in op.Slots() ==> Staged(w.files, start.files, root, s)
    requires OnlyTouches(start.files, w.files, root, op.Slots())
    ensures var r := SaveAndFinish(w, root, id, op);
      var w' := r.world;
      if id in w'.committed then
        AllReplaced(w'.files, start.files, root, op.Slots()) &&
        (r.Done? || (r.Error? && r.reason == Io && w'.journal == start.journal[id := DbCommitted] &&
                     AllFinal(w'.files, root, op.Slots())))
      else r == Error(w', Io) && w'.files == start.files && w'.journal == start.journal[id := Completed]
  {
    var saved := CommitCover(w, id, op.rom);
    if saved.Error? {
      RolledBack(saved.world, root, id, op, Io, start);
    } else {
      assert start.journal[id := Prepared][id := DbCommitted] == start.journal[id := DbCommitted];
      StagedIsReplaced(w.files, start.files, root, op.Slots());
      FinishWithOneError(saved.world, root, id, op, start.files);
    }
  }
}
