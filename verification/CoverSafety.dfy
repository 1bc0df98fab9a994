/**
 What cover rollback, cleanup and replacement guarantee about files under any fault schedule.

 `before` is the file map the replacement started from. A slot is Recoverable when its original
 content is at its path or in its backup, Original when nothing of the replacement is left, Replaced
 when the new content is in place, and Final when the backup is gone as well.
 */
module CoverSafety {
  import opened Basics
  import opened Storage
  import opened Covers

  function Footprint(s: Slot): set<string> {
    {s.path} + if s.backup.Some? then {s.backup.value} else {}
  }

  ghost predicate Within(root: string, s: Slot, at: Location) {
    at.root == root && at.relative in Footprint(s)
  }

  ghost predicate InArea(root: string, slots: seq<Slot>, at: Location) {
    exists s :: s in slots && Within(root, s, at)
  }

  /** All paths and backup paths of one operation are pairwise distinct. */
  ghost predicate Separate(slots: seq<Slot>) {
    (forall s :: s in slots && s.backup.Some? ==> s.backup.value != s.path) &&
    (forall s, t :: s in slots && t in slots && s != t ==> Footprint(s) !! Footprint(t))
  }

  ghost predicate Backed(f: Files, before: Files, root: string, s: Slot)
    requires s.backup.Some?
  {
    var here, there := Location(root, s.path), Location(root, s.backup.value);
    here in before && before[here].File? && there in f && f[there] == before[here]
  }

  ghost predicate InPlace(f: Files, before: Files, root: string, s: Slot) {
    var here := Location(root, s.path);
    Same(f, before, here) && (here in f ==> f[here].File?)
  }

  ghost predicate Recoverable(f: Files, before: Files, root: string, s: Slot) {
    var here := Location(root, s.path);
    match s.backup
    case None => s.Replacement? && here !in before && (here in f ==> f[here].File?)
    case Some(b) =>
      if Location(root, b) in f then
        Backed(f, before, root, s) && (here in f ==> s.Replacement? && f[here].File?)
      else
        here in f && InPlace(f, before, root, s)
  }

  ghost predicate Original(f: Files, before: Files, root: string, s: Slot) {
    InPlace(f, before, root, s) && (s.backup.Some? ==> Location(root, s.backup.value) !in f)
  }

  ghost predicate HasNew(f: Files, root: string, s: Slot) {
    var here := Location(root, s.path);
    if s.Replacement? then here in f && f[here] == File(s.bytes) else here !in f
  }

  ghost predicate Final(f: Files, root: string, s: Slot) {
    HasNew(f, root, s) && (s.backup.Some? ==> Location(root, s.backup.value) !in f)
  }

  ghost predicate Replaced(f: Files, before: Files, root: string, s: Slot) {
    HasNew(f, root, s) &&
    (s.backup.Some? && Location(root, s.backup.value) in f ==> Backed(f, before, root, s))
  }

  /** The new content is in place and every backup is still there: what a transaction commits on. */
  ghost predicate Staged(f: Files, before: Files, root: string, s: Slot) {
    HasNew(f, root, s) &&
    if s.backup.Some? then Backed(f, before, root, s) else s.Replacement? && Location(root, s.path) !in before
  }

  /** What preparing a replacement checked on disk: a backup is planned exactly for existing files. */
  ghost predicate Planned(f: Files, root: string, s: Slot) {
    var here := Location(root, s.path);
    (s.Obsolete? ==> s.backup.Some?) &&
    (s.backup.Some? <==> here in f) && (here in f ==> f[here].File?) &&
    (s.backup.Some? ==> Location(root, s.backup.value) !in f)
  }

  ghost predicate AllRecoverable(f: Files, before: Files, root: string, slots: seq<Slot>) {
    forall s :: s in slots ==> Recoverable(f, before, root, s)
  }

  ghost predicate AllOriginal(f: Files, before: Files, root: string, slots: seq<Slot>) {
    forall s :: s in slots ==> Original(f, before, root, s)
  }

  ghost predicate AllReplaced(f: Files, before: Files, root: string, slots: seq<Slot>) {
    forall s :: s in slots ==> Replaced(f, before, root, s)
  }

  ghost predicate AllFinal(f: Files, root: string, slots: seq<Slot>) {
    forall s :: s in slots ==> Final(f, root, s)
  }

  ghost predicate OnlyTouches(f: Files, g: Files, root: string, slots: seq<Slot>) {
    forall at :: !InArea(root, slots, at) ==> Same(f, g, at)
  }

  ghost predicate OnlyTouchesSlot(f: Files, g: Files, root: string, s: Slot) {
    forall at :: !Within(root, s, at) ==> Same(f, g, at)
  }

  /** A run that changes files and consumes faults, and fails only because of a fault. */
  ghost predicate Sound<T>(w: World, r: Run<T>) {
    r.world.journal == w.journal && r.world.roms == w.roms && r.world.committed == w.committed &&
    (NoIoErrors(w.faults) ==> NoIoErrors(r.world.faults) && !r.Error?) &&
    (w.faults == [] ==> r.world.faults == [] && r.Done?)
  }

  /** A slot the step did not touch keeps whatever was known about it. */
  lemma OtherSlotsKeep(f: Files, g: Files, before: Files, root: string, slots: seq<Slot>, s: Slot, t: Slot)
    requires Separate(slots) && s in slots && t in slots && s != t
    requires OnlyTouchesSlot(f, g, root, s)
    ensures Recoverable(f, before, root, t) == Recoverable(g, before, root, t)
    ensures Original(f, before, root, t) == Original(g, before, root, t)
    ensures Replaced(f, before, root, t) == Replaced(g, before, root, t)
    ensures Staged(f, before, root, t) == Staged(g, before, root, t)
    ensures Planned(f, root, t) == Planned(g, root, t)
    ensures Final(f, root, t) == Final(g, root, t)
  {
    assert t.path in Footprint(t) && t.path !in Footprint(s);
    assert Same(f, g, Location(root, t.path));
    if t.backup.Some? {
      assert t.backup.value in Footprint(t) && t.backup.value !in Footprint(s);
      assert Same(f, g, Location(root, t.backup.value));
    }
  }

  lemma TouchesSlotTransitive(f: Files, g: Files, h: Files, root: string, s: Slot)
    requires OnlyTouchesSlot(f, g, root, s) && OnlyTouchesSlot(g, h, root, s)
    ensures OnlyTouchesSlot(f, h, root, s)
  {
    forall at | !Within(root, s, at) ensures Same(f, h, at) {
      assert Same(f, g, at) && Same(g, h, at);
    }
  }

  /** Moving a backup home over an absent file, at any fault. */
  lemma MoveHome(w: World, root: string, s: Slot, before: Files)
    requires s.backup.Some? && s.backup.value != s.path
    requires Backed(w.files, before, root, s) && Location(root, s.path) !in w.files
    ensures var r := MoveManaged(w, Location(root, s.backup.value), Location(root, s.path));
      && Sound(w, r) && OnlyTouchesSlot(w.files, r.world.files, root, s)
      && Recoverable(r.world.files, before, root, s)
      && (r.Done? ==> Original(r.world.files, before, root, s))
  {
  }

  lemma ExistsSafe(w: World, at: Location)
    ensures var r := Exists(w, at);
      && Sound(w, r) && r.world.files == w.files && (r.Done? ==> (r.value <==> at in w.files))
  {
  }

  lemma RemovePath(w: World, root: string, s: Slot, path: string)
    requires path in Footprint(s)
    requires Location(root, path) in w.files ==> w.files[Location(root, path)].File?
    ensures var r := Remove(w, Location(root, path));
      && Sound(w, r) && OnlyTouchesSlot(w.files, r.world.files, root, s)
      && r.world.files == if r.Done? then w.files - {Location(root, path)} else w.files
  {
  }

  lemma RollbackSlotSafe(w: World, root: string, s: Slot, before: Files)
    requires Recoverable(w.files, before, root, s)
    requires s.backup.Some? ==> s.backup.value != s.path
    ensures var r := RollbackSlot(w, root, s);
      && Sound(w, r) && OnlyTouchesSlot(w.files, r.world.files, root, s)
      && Recoverable(r.world.files, before, root, s)
      && (r.Done? ==> Original(r.world.files, before, root, s))
  {
    var here := Location(root, s.path);
    if s.backup.None? {
      RemovePath(w, root, s, s.path);
    } else {
      var there := Location(root, s.backup.value);
      ExistsSafe(w, there);
      var r1 := Exists(w, there);
      if r1.Done? {
        ExistsSafe(r1.world, here);
        var r2 := Exists(r1.world, here);
        if r2.Done? {
          if r1.value && r2.value {
            RemovePath(r2.world, root, s, s.path);
            var r3 := Remove(r2.world, here);
            if r3.Done? {
              MoveHome(r3.world, root, s, before);
            }
          } else if r1.value {
            MoveHome(r2.world, root, s, before);
          }
        }
      }
    }
  }

  lemma {:induction false} RollbackSlotsSafe(w: World, root: string, slots: seq<Slot>, n: nat, before: Files)
    requires n <= |slots| && Separate(slots) && AllRecoverable(w.files, before, root, slots)
    requires forall i :: n <= i < |slots| ==> Original(w.files, before, root, slots[i])
    ensures var r := RollbackSlots(w, root, slots, n);
      && Sound(w, r) && OnlyTouches(w.files, r.world.files, root, slots)
      && AllRecoverable(r.world.files, before, root, slots)
      && (r.Done? ==> AllOriginal(r.world.files, before, root, slots))
    decreases n
  {
    if n > 0 {
      var s := slots[n - 1];
      RollbackSlotSafe(w, root, s, before);
      var r := RollbackSlot(w, root, s);
      forall t | t in slots && t != s
        ensures Recoverable(r.world.files, before, root, t)
        ensures Original(w.files, before, root, t) ==> Original(r.world.files, before, root, t)
      {
        OtherSlotsKeep(w.files, r.world.files, before, root, slots, s, t);
      }
      if r.Done? {
        RollbackSlotsSafe(r.world, root, slots, n - 1, before);
      }
    }
  }

  lemma SlotOrder(op: CoverOperation)
    ensures forall s :: s in op.entries + op.obsolete <==> s in op.Slots()
    ensures forall s :: s in op.Slots() <==> s in op.entries || s in op.obsolete
  {
  }

  /** Every rollback, cut off anywhere, leaves a recoverable state; a complete one restores all slots. */
  lemma RollbackSafe(w: World, root: string, op: CoverOperation, before: Files)
    requires Separate(op.Slots()) && AllRecoverable(w.files, before, root, op.Slots())
    ensures var r := Rollback(w, root, op);
      && Sound(w, r) && OnlyTouches(w.files, r.world.files, root, op.Slots())
      && AllRecoverable(r.world.files, before, root, op.Slots())
      && (r.Done? ==> AllOriginal(r.world.files, before, root, op.Slots()))
  {
    RollbackSlotsSafe(w, root, op.Slots(), |op.Slots()|, before);
  }

  /** Rollbacks one after the other, each under its own fault schedule. */
  ghost function Attempts(w: World, root: string, op: CoverOperation, schedules: seq<seq<Fault>>): World
    decreases |schedules|
  {
    if schedules == [] then w
    else Attempts(Rollback(w.(faults := schedules[0]), root, op).world, root, op, schedules[1..])
  }

  lemma {:induction false} AttemptsStayRecoverable(
      w: World, root: string, op: CoverOperation, before: Files, schedules: seq<seq<Fault>>)
    requires Separate(op.Slots()) && AllRecoverable(w.files, before, root, op.Slots())
    ensures var w' := Attempts(w, root, op, schedules);
      && AllRecoverable(w'.files, before, root, op.Slots())
      && OnlyTouches(w.files, w'.files, root, op.Slots())
    decreases |schedules|
  {
    if schedules != [] {
      var w1 := w.(faults := schedules[0]);
      RollbackSafe(w1, root, op, before);
      AttemptsStayRecoverable(Rollback(w1, root, op).world, root, op, before, schedules[1..]);
    }
  }

  /**
   Rollback is crash-safe: from any state a replacement can leave, any number of interrupted or
   failing rollbacks followed by an undisturbed one end without error in exactly the old files.
   */
  lemma RollbackIsCrashSafe(w: World, root: string, op: CoverOperation, before: Files, schedules: seq<seq<Fault>>)
    requires Separate(op.Slots()) && AllRecoverable(w.files, before, root, op.Slots())
    requires forall s :: s in op.Slots() ==> Planned(before, root, s)
    requires OnlyTouches(before, w.files, root, op.Slots())
    ensures AllRecoverable(Attempts(w, root, op, schedules).files, before, root, op.Slots())
    ensures var r := Rollback(Attempts(w, root, op, schedules).(faults := []), root, op);
      && r.Done? && r.world.files == before
  {
    AttemptsStayRecoverable(w, root, op, before, schedules);
    var w1 := Attempts(w, root, op, schedules).(faults := []);
    RollbackSafe(w1, root, op, before);
    var f := Rollback(w1, root, op).world.files;
    forall at ensures Same(f, before, at) {
      if InArea(root, op.Slots(), at) {
        var s :| s in op.Slots() && Within(root, s, at);
        assert Original(f, before, root, s) && Planned(before, root, s);
      } else {
        assert Same(before, w.files, at) && Same(w.files, w1.files, at) && Same(w1.files, f, at);
      }
    }
    assert forall at :: at in f <==> at in before by {
      forall at ensures at in f <==> at in before {
        assert Same(f, before, at);
      }
    }
    assert forall at | at in f :: f[at] == before[at] by {
      forall at | at in f ensures f[at] == before[at] {
        assert Same(f, before, at);
      }
    }
  }

  // ---------- staging: what a partly done replacement leaves ----------

  /** Moving an original file to its backup, at any fault. */
  lemma MoveAway(w: World, root: string, s: Slot, before: Files)
    requires s.backup.Some? && s.backup.value != s.path
    requires Planned(before, root, s) && Original(w.files, before, root, s)
    ensures var r := MoveManaged(w, Location(root, s.path), Location(root, s.backup.value));
      && Sound(w, r) && OnlyTouchesSlot(w.files, r.world.files, root, s)
      && Recoverable(r.world.files, before, root, s)
      && (r.Done? ==> Backed(r.world.files, before, root, s) && Location(root, s.path) !in r.world.files)
  {
  }

  /** Writing the new content where nothing is, at any fault. */
  lemma WriteNewContent(w: World, root: string, s: Slot, before: Files)
    requires s.Replacement? && Location(root, s.path) !in w.files
    requires if s.backup.Some? then s.backup.value != s.path && Backed(w.files, before, root, s)
             else Location(root, s.path) !in before
    ensures var r := WriteNewAtomic(w, Location(root, s.path), s.bytes);
      && Sound(w, r) && OnlyTouchesSlot(w.files, r.world.files, root, s)
      && Recoverable(r.world.files, before, root, s)
      && (r.Done? ==> Staged(r.world.files, before, root, s))
  {
  }

  lemma StageSlot(w: World, root: string, s: Slot, before: Files)
    requires s.backup.Some? ==> s.backup.value != s.path
    requires Planned(before, root, s) && Original(w.files, before, root, s)
    requires s.Replacement?
    ensures var r := StageEntry(w, root, s);
      && Sound(w, r) && OnlyTouchesSlot(w.files, r.world.files, root, s)
      && Recoverable(r.world.files, before, root, s)
      && (r.Done? ==> Staged(r.world.files, before, root, s))
  {
    if s.backup.None? {
      WriteNewContent(w, root, s, before);
    } else {
      MoveAway(w, root, s, before);
      var r := MoveManaged(w, Location(root, s.path), Location(root, s.backup.value));
      if r.Done? {
        WriteNewContent(r.world, root, s, before);
        var f := WriteNewAtomic(r.world, Location(root, s.path), s.bytes).world.files;
        TouchesSlotTransitive(w.files, r.world.files, f, root, s);
      }
    }
  }

  lemma MoveObsoleteSlot(w: World, root: string, s: Slot, before: Files)
    requires s.Obsolete? && s.backup.Some? && s.backup.value != s.path
    requires Planned(before, root, s) && Original(w.files, before, root, s)
    ensures var r := MoveManaged(w, Location(root, s.path), Location(root, s.backup.value));
      && Sound(w, r) && OnlyTouchesSlot(w.files, r.world.files, root, s)
      && Recoverable(r.world.files, before, root, s)
      && (r.Done? ==> Staged(r.world.files, before, root, s))
  {
    MoveAway(w, root, s, before);
  }

  function Members(slots: seq<Slot>): set<Slot> {
    set s | s in slots
  }

  /** Slots are handled once each, so a slot not yet reached still has its old files. */
  ghost predicate Progress(f: Files, before: Files, root: string, slots: seq<Slot>, done: set<Slot>) {
    forall s :: s in slots ==> if s in done then Staged(f, before, root, s) else Original(f, before, root, s)
  }

  lemma ProgressIsRecoverable(f: Files, before: Files, root: string, slots: seq<Slot>, done: set<Slot>)
    requires forall s :: s in slots ==> Planned(before, root, s)
    requires Progress(f, before, root, slots, done)
    ensures AllRecoverable(f, before, root, slots)
  {
  }

  lemma ProgressStep(f: Files, g: Files, before: Files, root: string, slots: seq<Slot>, done: set<Slot>, s: Slot)
    requires Separate(slots) && s in slots && Progress(f, before, root, slots, done)
    requires forall t :: t in slots ==> Planned(before, root, t)
    requires OnlyTouchesSlot(f, g, root, s)
    ensures Staged(g, before, root, s) ==> Progress(g, before, root, slots, done + {s})
    ensures Recoverable(g, before, root, s) ==> AllRecoverable(g, before, root, slots)
    ensures OnlyTouches(f, g, root, slots)
  {
    ProgressIsRecoverable(f, before, root, slots, done);
    forall t | t in slots && t != s
      ensures Recoverable(g, before, root, t)
      ensures if t in done then Staged(g, before, root, t) else Original(g, before, root, t)
    {
      OtherSlotsKeep(f, g, before, root, slots, s, t);
    }
  }

  ghost predicate NoRepeats(slots: seq<Slot>) {
    forall i, j :: 0 <= i < j < |slots| ==> slots[i] != slots[j]
  }

  lemma NotYetMoved(op: CoverOperation, i: nat)
    requires i < |op.obsolete| && NoRepeats(op.Slots())
    ensures op.obsolete[i] !in Members(op.obsolete[..i])
  {
    forall j | 0 <= j < i ensures op.obsolete[j] != op.obsolete[i] {
      assert op.Slots()[j] == op.obsolete[j] && op.Slots()[i] == op.obsolete[i];
    }
  }

  lemma {:induction false} MoveObsoleteSafe(w: World, root: string, op: CoverOperation, i: nat, before: Files)
    requires i <= |op.obsolete| && WellTyped(op) && NoRepeats(op.Slots()) && Separate(op.Slots())
    requires forall s :: s in op.Slots() ==> Planned(before, root, s)
    requires Progress(w.files, before, root, op.Slots(), Members(op.obsolete[..i]))
    ensures var r := MoveObsolete(w, root, op.obsolete, i);
      && Sound(w, r) && OnlyTouches(w.files, r.world.files, root, op.Slots())
      && AllRecoverable(r.world.files, before, root, op.Slots())
      && (r.Done? ==> Progress(r.world.files, before, root, op.Slots(), Members(op.obsolete)))
    decreases |op.obsolete| - i
  {
    var slots, done := op.Slots(), Members(op.obsolete[..i]);
    ProgressIsRecoverable(w.files, before, root, slots, done);
    if i == |op.obsolete| {
      assert op.obsolete[..i] == op.obsolete;
    } else {
      var s := op.obsolete[i];
      assert s == slots[i] && s in slots;
      NotYetMoved(op, i);
      MoveObsoleteSlot(w, root, s, before);
      var r := MoveManaged(w, Location(root, s.path), Location(root, s.backup.value));
      ProgressStep(w.files, r.world.files, before, root, slots, done, s);
      if r.Done? {
        assert op.obsolete[..i + 1] == op.obsolete[..i] + [s];
        MoveObsoleteSafe(r.world, root, op, i + 1, before);
      }
    }
  }

  lemma {:induction false} StageEntriesSafe(w: World, root: string, op: CoverOperation, i: nat, before: Files)
    requires i <= |op.entries| && WellTyped(op) && NoRepeats(op.Slots()) && Separate(op.Slots())
    requires forall s :: s in op.Slots() ==> Planned(before, root, s)
    requires Progress(w.files, before, root, op.Slots(), Members(op.obsolete + op.entries[..i]))
    ensures var r := StageEntries(w, root, op.entries, i);
      && Sound(w, r) && OnlyTouches(w.files, r.world.files, root, op.Slots())
      && AllRecoverable(r.world.files, before, root, op.Slots())
      && (r.Done? ==> forall s :: s in op.Slots() ==> Staged(r.world.files, before, root, s))
    decreases |op.entries| - i
  {
    var slots, done := op.Slots(), Members(op.obsolete + op.entries[..i]);
    ProgressIsRecoverable(w.files, before, root, slots, done);
    if i == |op.entries| {
      assert op.obsolete + op.entries[..i] == slots;
    } else {
      var s := op.entries[i];
      assert s == slots[|op.obsolete| + i] && s in slots;
      forall j | 0 <= j < |op.obsolete| + i ensures (op.obsolete + op.entries[..i])[j] != s {
        assert slots[j] == (op.obsolete + op.entries[..i])[j];
      }
      StageSlot(w, root, s, before);
      var r := StageEntry(w, root, s);
      ProgressStep(w.files, r.world.files, before, root, slots, done, s);
      if r.Done? {
        assert op.obsolete + op.entries[..i + 1] == op.obsolete + op.entries[..i] + [s];
        StageEntriesSafe(r.world, root, op, i + 1, before);
      }
    }
  }

  /** Wherever staging stops, rollback can undo it; when it ends, all new files and backups are there. */
  lemma StageSafe(w: World, root: string, op: CoverOperation)
    requires WellTyped(op) && NoRepeats(op.Slots()) && Separate(op.Slots())
    requires forall s :: s in op.Slots() ==> Planned(w.files, root, s)
    ensures var r := Stage(w, root, op);
      && Sound(w, r) && OnlyTouches(w.files, r.world.files, root, op.Slots())
      && AllRecoverable(r.world.files, w.files, root, op.Slots())
      && (r.Done? ==> forall s :: s in op.Slots() ==> Staged(r.world.files, w.files, root, s))
  {
    assert Progress(w.files, w.files, root, op.Slots(), {});
    assert op.obsolete[..0] == [];
    MoveObsoleteSafe(w, root, op, 0, w.files);
    var r := MoveObsolete(w, root, op.obsolete, 0);
    if r.Done? {
      assert op.obsolete + op.entries[..0] == op.obsolete;
      StageEntriesSafe(r.world, root, op, 0, w.files);
    }
  }

  // ---------- cleanup and discard ----------

  lemma {:induction false} VerifyEntriesSafe(w: World, root: string, entries: seq<Slot>, i: nat)
    requires i <= |entries| && forall s :: s in entries ==> Location(root, s.path) in w.files
    ensures var r := VerifyEntries(w, root, entries, i);
      && Sound(w, r) && r.world.files == w.files
    decreases |entries| - i
  {
    if i < |entries| {
      ExistsSafe(w, Location(root, entries[i].path));
      var r := Exists(w, Location(root, entries[i].path));
      if r.Done? {
        VerifyEntriesSafe(r.world, root, entries, i + 1);
      }
    }
  }

  lemma DropBackupStep(w: World, root: string, slots: seq<Slot>, s: Slot, before: Files)
    requires Separate(slots) && s in slots && s.backup.Some? && AllReplaced(w.files, before, root, slots)
    ensures var r := Remove(w, Location(root, s.backup.value));
      && Sound(w, r) && OnlyTouches(w.files, r.world.files, root, slots)
      && AllReplaced(r.world.files, before, root, slots)
      && (r.Done? ==> Final(r.world.files, root, s))
      && (forall t :: t in slots && Final(w.files, root, t) ==> Final(r.world.files, root, t))
  {
    assert Replaced(w.files, before, root, s);
    RemovePath(w, root, s, s.backup.value);
    var r := Remove(w, Location(root, s.backup.value));
    assert Replaced(r.world.files, before, root, s);
    forall t | t in slots && t != s
      ensures Replaced(r.world.files, before, root, t)
      ensures Final(w.files, root, t) ==> Final(r.world.files, root, t)
    {
      OtherSlotsKeep(w.files, r.world.files, before, root, slots, s, t);
    }
  }

  lemma {:induction false} DropBackupsSafe(w: World, root: string, slots: seq<Slot>, i: nat, before: Files)
    requires i <= |slots| && Separate(slots) && AllReplaced(w.files, before, root, slots)
    requires forall j :: 0 <= j < i ==> Final(w.files, root, slots[j])
    ensures var r := DropBackups(w, root, slots, i);
      && Sound(w, r) && OnlyTouches(w.files, r.world.files, root, slots)
      && AllReplaced(r.world.files, before, root, slots)
      && (r.Done? ==> AllFinal(r.world.files, root, slots))
    decreases |slots| - i
  {
    if i < |slots| {
      var s := slots[i];
      assert Replaced(w.files, before, root, s);
      if s.backup.None? {
        DropBackupsSafe(w, root, slots, i + 1, before);
      } else {
        DropBackupStep(w, root, slots, s, before);
        var r := Remove(w, Location(root, s.backup.value));
        if r.Done? {
          DropBackupsSafe(r.world, root, slots, i + 1, before);
        }
      }
    }
  }

  lemma CleanupSafe(w: World, root: string, op: CoverOperation, before: Files)
    requires WellTyped(op) && Separate(op.Slots()) && AllReplaced(w.files, before, root, op.Slots())
    ensures var r := Cleanup(w, root, op);
      && Sound(w, r) && OnlyTouches(w.files, r.world.files, root, op.Slots())
      && AllReplaced(r.world.files, before, root, op.Slots())
      && (r.Done? ==> AllFinal(r.world.files, root, op.Slots()))
  {
    SlotOrder(op);
    VerifyEntriesSafe(w, root, op.entries, 0);
    var r := VerifyEntries(w, root, op.entries, 0);
    if r.Done? {
      DropBackupsSafe(r.world, root, op.entries + op.obsolete, 0, before);
    }
  }

  ghost predicate Gone(f: Files, root: string, s: Slot) {
    Location(root, s.path) !in f && (s.backup.Some? ==> Location(root, s.backup.value) !in f)
  }

  /** A run that at most removes the files of these slots. */
  ghost predicate OnlyRemoves(w: World, r: World, root: string, slots: seq<Slot>) {
    r.journal == w.journal && r.roms == w.roms && r.committed == w.committed &&
    r.files.Keys <= w.files.Keys && OnlyTouches(w.files, r.files, root, slots)
  }

  lemma RemoveOnlyRemoves(w: World, root: string, slots: seq<Slot>, s: Slot, path: string)
    requires s in slots && path in Footprint(s)
    ensures var r := Remove(w, Location(root, path));
      && OnlyRemoves(w, r.world, root, slots) && (r.Done? ==> Location(root, path) !in r.world.files)
  {
    assert Within(root, s, Location(root, path));
  }

  lemma {:induction false} DiscardSlotsSafe(w: World, root: string, slots: seq<Slot>, i: nat)
    requires i <= |slots| && forall j :: 0 <= j < i ==> Gone(w.files, root, slots[j])
    ensures var r := DiscardSlots(w, root, slots, i);
      && OnlyRemoves(w, r.world, root, slots)
      && (r.Done? ==> forall s :: s in slots ==> Gone(r.world.files, root, s))
    decreases |slots| - i
  {
    if i < |slots| {
      var s := slots[i];
      RemoveOnlyRemoves(w, root, slots, s, s.path);
      var r1 := Remove(w, Location(root, s.path));
      if r1.Done? {
        if s.backup.None? {
          DiscardSlotsSafe(r1.world, root, slots, i + 1);
        } else {
          RemoveOnlyRemoves(r1.world, root, slots, s, s.backup.value);
          var r2 := Remove(r1.world, Location(root, s.backup.value));
          if r2.Done? {
            DiscardSlotsSafe(r2.world, root, slots, i + 1);
          }
        }
      }
    }
  }

  /** For a ROM that is gone, a discard that ends leaves none of the operation's files. */
  lemma DiscardSafe(w: World, root: string, op: CoverOperation)
    ensures var r := Discard(w, root, op);
      && OnlyRemoves(w, r.world, root, op.Slots())
      && (r.Done? ==> forall s :: s in op.Slots() ==> Gone(r.world.files, root, s))
  {
    SlotOrder(op);
    DiscardSlotsSafe(w, root, op.entries + op.obsolete, 0);
  }
}
