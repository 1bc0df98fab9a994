/**
 Cover replacement and its recovery, as runs over the managed world.

 A replacement moves obsolete covers and the files it overwrites to backups, writes the new files,
 commits one transaction and then drops the backups. Recovery either undoes that or finishes it.
 Each critical section runs under the asset-root lock; the functions say where it leaves the world
 under any fault schedule, and the methods are the procedures themselves.
 */
module Covers {
  import opened Basics
  import opened Storage

  /**
   One path a replacement touches. A `Replacement` is overwritten (its backup is absent when there
   was nothing to overwrite), an `Obsolete` cover only goes away. `bytes` is what is written.
   */
  datatype Slot =
    | Replacement(path: string, backup: Option<string>, bytes: Bytes)
    | Obsolete(path: string, backup: Option<string>)

  datatype CoverOperation = CoverOperation(rom: int, entries: seq<Slot>, obsolete: seq<Slot>) {
    /** The order rollback walks backwards: all replacements, then the obsolete covers. */
    function Slots(): seq<Slot> {
      obsolete + entries
    }
  }

  // ---------- the procedures, as functions on worlds ----------

  /** Undo one slot: the cases of a replacement and of an obsolete cover differ on two present files. */
  function RollbackSlot(w: World, root: string, s: Slot): Run<()> {
    var here := Location(root, s.path);
    match s.backup
    case None =>
      if s.Obsolete? then Done(w, ())
      else
        var (w1, _) :- Remove(w, here);
        Done(w1, ())
    case Some(b) =>
      var there := Location(root, b);
      var (w1, backedUp) :- Exists(w, there);
      var (w2, present) :- Exists(w1, here);
      if backedUp && present then
        if s.Obsolete? then Error(w2, AmbiguousArtifact)
        else
          var (w3, _) :- Remove(w2, here);
          MoveManaged(w3, there, here)
      else if backedUp then MoveManaged(w2, there, here)
      else if present then Done(w2, ())
      else Error(w2, MissingArtifact)
  }

  function RollbackSlots(w: World, root: string, slots: seq<Slot>, n: nat): Run<()>
    requires n <= |slots|
    decreases n
  {
    if n == 0 then Done(w, ())
    else
      var (w1, _) :- RollbackSlot(w, root, slots[n - 1]);
      RollbackSlots(w1, root, slots, n - 1)
  }

  function Rollback(w: World, root: string, op: CoverOperation): Run<()> {
    RollbackSlots(w, root, op.Slots(), |op.Slots()|)
  }

  function VerifyEntries(w: World, root: string, entries: seq<Slot>, i: nat): Run<()>
    requires i <= |entries|
    decreases |entries| - i
  {
    if i == |entries| then Done(w, ())
    else
      var (w1, present) :- Exists(w, Location(root, entries[i].path));
      if present then VerifyEntries(w1, root, entries, i + 1) else Error(w1, MissingArtifact)
  }

  function DropBackups(w: World, root: string, slots: seq<Slot>, i: nat): Run<()>
    requires i <= |slots|
    decreases |slots| - i
  {
    if i == |slots| then Done(w, ())
    else if slots[i].backup.None? then DropBackups(w, root, slots, i + 1)
    else
      var (w1, _) :- Remove(w, Location(root, slots[i].backup.value));
      DropBackups(w1, root, slots, i + 1)
  }

  function Cleanup(w: World, root: string, op: CoverOperation): Run<()> {
    var (w1, _) :- VerifyEntries(w, root, op.entries, 0);
    DropBackups(w1, root, op.entries + op.obsolete, 0)
  }

  function DiscardSlots(w: World, root: string, slots: seq<Slot>, i: nat): Run<()>
    requires i <= |slots|
    decreases |slots| - i
  {
    if i == |slots| then Done(w, ())
    else
      var (w1, _) :- Remove(w, Location(root, slots[i].path));
      if slots[i].backup.None? then DiscardSlots(w1, root, slots, i + 1)
      else
        var (w2, _) :- Remove(w1, Location(root, slots[i].backup.value));
        DiscardSlots(w2, root, slots, i + 1)
  }

  function Discard(w: World, root: string, op: CoverOperation): Run<()> {
    DiscardSlots(w, root, op.entries + op.obsolete, 0)
  }

  /** What a state other than Completed asks of the files: discard, roll back or clean up. */
  function Settle(w: World, root: string, op: CoverOperation, state: FileOperationState, romExists: bool): Run<()> {
    if !romExists then Discard(w, root, op)
    else if state in {Prepared, Failed} then Rollback(w, root, op)
    else Cleanup(w, root, op)
  }

  function SettleAndComplete(
      w: World, root: string, id: string, op: CoverOperation, state: FileOperationState, romExists: bool): Run<()>
  {
    var (w1, _) :- Settle(w, root, op, state, romExists);
    SetState(w1, id, Completed)
  }

  /** Recovery of one operation, dispatched on the journal state read under the lock. */
  function Reconcile(w: World, root: string, id: string, op: CoverOperation): Run<()> {
    var (w1, state) :- StateById(w, id);
    if state.None? then Error(w1, JournalRowDisappeared)
    else if state.value == Completed then Done(w1, ())
    else
      var (w2, romExists) :- RomExists(w1, op.rom);
      SettleAndComplete(w2, root, id, op, state.value, romExists)
  }

  function MoveObsolete(w: World, root: string, slots: seq<Slot>, i: nat): Run<()>
    requires i <= |slots|
    decreases |slots| - i
  {
    if i == |slots| then Done(w, ())
    else if slots[i].backup.None? then MoveObsolete(w, root, slots, i + 1)
    else
      var (w1, _) :- MoveManaged(w, Location(root, slots[i].path), Location(root, slots[i].backup.value));
      MoveObsolete(w1, root, slots, i + 1)
  }

  function StageEntry(w: World, root: string, s: Slot): Run<()>
    requires s.Replacement?
  {
    var (w1, _) :-
      if s.backup.None? then Run<()>.Done(w, ())
      else MoveManaged(w, Location(root, s.path), Location(root, s.backup.value));
    WriteNewAtomic(w1, Location(root, s.path), s.bytes)
  }

  function StageEntries(w: World, root: string, slots: seq<Slot>, i: nat): Run<()>
    requires i <= |slots| && forall s :: s in slots ==> s.Replacement?
    decreases |slots| - i
  {
    if i == |slots| then Done(w, ())
    else
      var (w1, _) :- StageEntry(w, root, slots[i]);
      StageEntries(w1, root, slots, i + 1)
  }

  predicate WellTyped(op: CoverOperation) {
    (forall s :: s in op.entries ==> s.Replacement?) &&
    (forall s :: s in op.obsolete ==> s.Obsolete? && s.backup.Some?)
  }

  function Stage(w: World, root: string, op: CoverOperation): Run<()>
    requires WellTyped(op)
  {
    var (w1, _) :- MoveObsolete(w, root, op.obsolete, 0);
    StageEntries(w1, root, op.entries, 0)
  }

  /** An error before the commit: roll back and record how that went; the caller sees its own error. */
  function RollbackAndRecord(w: World, root: string, id: string, op: CoverOperation, why: Reason): Run<()> {
    var rolled := Rollback(w, root, op);
    if rolled.Crashed? then rolled
    else
      var recorded := SetState(rolled.world, id, if rolled.Done? then Completed else Failed);
      if recorded.Crashed? then Crashed(recorded.world) else Error(recorded.world, why)
  }

  /** After the commit: drop the backups, or leave that to recovery. */
  function Finish(w: World, root: string, id: string, op: CoverOperation): Run<()> {
    var cleaned := Cleanup(w, root, op);
    if cleaned.Crashed? then cleaned
    else SetState(cleaned.world, id, if cleaned.Done? then Completed else CleanupPending)
  }

  /** One cover replacement, from its journal row to the end of its cleanup. */
  function Replace(w: World, root: string, id: string, op: CoverOperation): Run<()>
    requires WellTyped(op)
  {
    var (w1, _) :- CreateRow(w, id);
    var staged := Stage(w1, root, op);
    if staged.Crashed? then staged
    else if staged.Error? then RollbackAndRecord(staged.world, root, id, op, staged.reason)
    else
      var saved := CommitCover(staged.world, id, op.rom);
      if saved.Crashed? then saved
      else if saved.Error? then RollbackAndRecord(saved.world, root, id, op, saved.reason)
      else Finish(saved.world, root, id, op)
  }

  // ---------- the procedures, as they run ----------

  method RollbackCoverFile(host: Host, root: string, s: Slot) returns (r: Outcome<()>)
    modifies host
    ensures r.In(host.Now()) == RollbackSlot(old(host.Now()), root, s)
  {
    var here := Location(root, s.path);
    if s.backup.None? {
      if s.Replacement? {
        var _ :- host.RemoveFile(here);
      }
      return Success(());
    }
    var there := Location(root, s.backup.value);
    var backedUp :- host.FileExists(there);
    var present :- host.FileExists(here);
    if backedUp && present {
      if s.Obsolete? {
        return Failure(AmbiguousArtifact);
      }
      var _ :- host.RemoveFile(here);
      r := host.MoveFile(there, here);
    } else if backedUp {
      r := host.MoveFile(there, here);
    } else if present {
      r := Success(());
    } else {
      r := Failure(MissingArtifact);
    }
  }

  method RollbackCoverFiles(host: Host, root: string, op: CoverOperation) returns (r: Outcome<()>)
    modifies host
    ensures r.In(host.Now()) == Rollback(old(host.Now()), root, op)
  {
    ghost var slots := op.Slots();
    var base := |op.obsolete|;
    var i := |op.entries|;
    while i > 0
      invariant 0 <= i <= |op.entries|
      invariant RollbackSlots(host.Now(), root, slots, base + i) == Rollback(old(host.Now()), root, op)
    {
      i := i - 1;
      var _ :- RollbackCoverFile(host, root, op.entries[i]);
    }
    i := base;
    while i > 0
      invariant 0 <= i <= base
      invariant RollbackSlots(host.Now(), root, slots, i) == Rollback(old(host.Now()), root, op)
    {
      i := i - 1;
      var _ :- RollbackCoverFile(host, root, op.obsolete[i]);
    }
    return Success(());
  }

  method CleanupCoverFiles(host: Host, root: string, op: CoverOperation) returns (r: Outcome<()>)
    modifies host
    ensures r.In(host.Now()) == Cleanup(old(host.Now()), root, op)
  {
    var i := 0;
    while i < |op.entries|
      invariant 0 <= i <= |op.entries|
      invariant VerifyEntries(host.Now(), root, op.entries, i) == VerifyEntries(old(host.Now()), root, op.entries, 0)
    {
      var present :- host.FileExists(Location(root, op.entries[i].path));
      if !present {
        return Failure(MissingArtifact);
      }
      i := i + 1;
    }
    var slots := op.entries + op.obsolete;
    i := 0;
    while i < |slots|
      invariant 0 <= i <= |slots|
      invariant DropBackups(host.Now(), root, slots, i) == Cleanup(old(host.Now()), root, op)
    {
      if slots[i].backup.Some? {
        var _ :- host.RemoveFile(Location(root, slots[i].backup.value));
      }
      i := i + 1;
    }
    return Success(());
  }

  method DiscardCoverFiles(host: Host, root: string, op: CoverOperation) returns (r: Outcome<()>)
    modifies host
    ensures r.In(host.Now()) == Discard(old(host.Now()), root, op)
  {
    var slots := op.entries + op.obsolete;
    var i := 0;
    while i < |slots|
      invariant 0 <= i <= |slots|
      invariant DiscardSlots(host.Now(), root, slots, i) == Discard(old(host.Now()), root, op)
    {
      var _ :- host.RemoveFile(Location(root, slots[i].path));
      if slots[i].backup.Some? {
        var _ :- host.RemoveFile(Location(root, slots[i].backup.value));
      }
      i := i + 1;
    }
    return Success(());
  }

  method ReconcileCoverOperationLocked(host: Host, root: string, id: string, op: CoverOperation)
    returns (r: Outcome<()>)
    modifies host
    ensures r.In(host.Now()) == Reconcile(old(host.Now()), root, id, op)
  {
    var state :- host.ReadState(id);
    if state.None? {
      return Failure(JournalRowDisappeared);
    } else if state.value == Completed {
      return Success(());
    }
    var romExists :- host.HasRom(op.rom);
    var settled;
    if !romExists {
      settled := DiscardCoverFiles(host, root, op);
    } else if state.value in {Prepared, Failed} {
      settled := RollbackCoverFiles(host, root, op);
    } else {
      settled := CleanupCoverFiles(host, root, op);
    }
    var _ :- settled;
    r := host.WriteState(id, Completed);
  }

  method StageCoverFile(host: Host, root: string, s: Slot) returns (r: Outcome<()>)
    requires s.Replacement?
    modifies host
    ensures r.In(host.Now()) == StageEntry(old(host.Now()), root, s)
  {
    if s.backup.Some? {
      var _ :- host.MoveFile(Location(root, s.path), Location(root, s.backup.value));
    }
    r := host.WriteNew(Location(root, s.path), s.bytes);
  }

  method PrepareCoverFiles(host: Host, root: string, op: CoverOperation) returns (r: Outcome<()>)
    requires WellTyped(op)
    modifies host
    ensures r.In(host.Now()) == Stage(old(host.Now()), root, op)
  {
    var i := 0;
    while i < |op.obsolete|
      invariant 0 <= i <= |op.obsolete|
      invariant MoveObsolete(host.Now(), root, op.obsolete, i) == MoveObsolete(old(host.Now()), root, op.obsolete, 0)
    {
      var s := op.obsolete[i];
      var _ :- host.MoveFile(Location(root, s.path), Location(root, s.backup.value));
      i := i + 1;
    }
    i := 0;
    while i < |op.entries|
      invariant 0 <= i <= |op.entries|
      invariant StageEntries(host.Now(), root, op.entries, i) == Stage(old(host.Now()), root, op)
    {
      var _ :- StageCoverFile(host, root, op.entries[i]);
      i := i + 1;
    }
    return Success(());
  }

  method RollbackAndRecordCoverFailure(host: Host, root: string, id: string, op: CoverOperation, why: Reason)
    returns (r: Outcome<()>)
    modifies host
    ensures r.In(host.Now()) == RollbackAndRecord(old(host.Now()), root, id, op, why)
  {
    var rolled := RollbackCoverFiles(host, root, op);
    if rolled.Died? {
      return Died;
    }
    var recorded := host.WriteState(id, if rolled.Success? then Completed else Failed);
    return if recorded.Died? then Died else Failure(why);
  }

  method ReplaceCover(host: Host, root: string, id: string, op: CoverOperation) returns (r: Outcome<()>)
    requires WellTyped(op)
    modifies host
    ensures r.In(host.Now()) == Replace(old(host.Now()), root, id, op)
  {
    var _ :- host.InsertRow(id);
    var staged := PrepareCoverFiles(host, root, op);
    if staged.Success? {
      staged := host.SaveCover(id, op.rom);
    }
    if staged.Died? {
      return Died;
    } else if staged.Failure? {
      r := RollbackAndRecordCoverFailure(host, root, id, op, staged.reason);
      return;
    }
    var cleaned := CleanupCoverFiles(host, root, op);
    if cleaned.Died? {
      return Died;
    }
    r := host.WriteState(id, if cleaned.Success? then Completed else CleanupPending);
  }
}
