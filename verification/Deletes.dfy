/**
 Managed deletes and their recovery: files go to trash, one transaction removes the rows, and the
 trash is dropped. Recovery of a prepared or failed delete decides from the rows which side won.
 */
module Deletes {
  import opened Storage

  datatype Artifact = Artifact(original: Location, trash: Location, directory: bool)

  datatype DeleteOperation = DeleteOperation(roms: seq<int>, entries: seq<Artifact>) {
    function RomSet(): set<int> {
      set rom | rom in roms
    }
  }

  // ---------- the procedures, as functions on worlds ----------

  function MoveArtifact(w: World, a: Artifact, source: Location, target: Location): Run<()> {
    if a.directory then MoveManagedDirectory(w, source, target) else MoveManaged(w, source, target)
  }

  function RemoveTrash(w: World, a: Artifact): Run<bool> {
    if a.directory then RemoveDirectoryAll(w, a.trash) else Remove(w, a.trash)
  }

  /** Best effort, last moved first: an entry that cannot be restored is left to recovery. */
  function Restore(w: World, entries: seq<Artifact>, n: nat): Run<()>
    requires n <= |entries|
    decreases n
  {
    if n == 0 then Done(w, ())
    else
      var r := MoveArtifact(w, entries[n - 1], entries[n - 1].trash, entries[n - 1].original);
      if r.Crashed? then r else Restore(r.world, entries, n - 1)
  }

  function RestoreAndFail(w: World, id: string, entries: seq<Artifact>, n: nat, why: Reason): Run<()>
    requires n <= |entries|
  {
    var (w1, _) :- Restore(w, entries, n);
    var failed := SetState(w1, id, Failed);
    if failed.Crashed? then failed else Error(failed.world, why)
  }

  function MoveEntries(w: World, id: string, entries: seq<Artifact>, i: nat): Run<()>
    requires i <= |entries|
    decreases |entries| - i
  {
    if i == |entries| then Done(w, ())
    else
      var r := MoveArtifact(w, entries[i], entries[i].original, entries[i].trash);
      if r.Crashed? then r
      else if r.Error? then RestoreAndFail(r.world, id, entries, i, r.reason)
      else MoveEntries(r.world, id, entries, i + 1)
  }

  /** Drop every trash entry it can; the value says whether all of them went. */
  function DropAll(w: World, entries: seq<Artifact>, i: nat, clean: bool): Run<bool>
    requires i <= |entries|
    decreases |entries| - i
  {
    if i == |entries| then Done(w, clean)
    else
      var r := RemoveTrash(w, entries[i]);
      if r.Crashed? then r else DropAll(r.world, entries, i + 1, clean && r.Done?)
  }

  function FinishDelete(w: World, id: string, entries: seq<Artifact>): Run<()> {
    var (w1, clean) :- DropAll(w, entries, 0, true);
    SetState(w1, id, if clean then Completed else CleanupPending)
  }

  function CommitRows(w: World, id: string, op: DeleteOperation): Run<()> {
    var committed := CommitDelete(w, id, op.RomSet());
    if committed.Crashed? then committed
    else if committed.Error? then RestoreAndFail(committed.world, id, op.entries, |op.entries|, committed.reason)
    else FinishDelete(committed.world, id, op.entries)
  }

  function Delete(w: World, id: string, op: DeleteOperation): Run<()> {
    var (w1, _) :- CreateRow(w, id);
    var (w2, _) :- MoveEntries(w1, id, op.entries, 0);
    CommitRows(w2, id, op)
  }

  function DropTrash(w: World, entries: seq<Artifact>, i: nat): Run<()>
    requires i <= |entries|
    decreases |entries| - i
  {
    if i == |entries| then Done(w, ())
    else
      var (w1, _) :- RemoveTrash(w, entries[i]);
      DropTrash(w1, entries, i + 1)
  }

  /** How many of the listed rows are still there. */
  function CountRows(w: World, roms: seq<int>, i: nat, present: nat): Run<nat>
    requires i <= |roms|
    decreases |roms| - i
  {
    if i == |roms| then Done(w, present)
    else
      var (w1, here) :- RomExists(w, roms[i]);
      CountRows(w1, roms, i + 1, if here then present + 1 else present)
  }

  function PutBack(w: World, a: Artifact): Run<()> {
    var (w1, trashed) :- Exists(w, a.trash);
    var (w2, present) :- Exists(w1, a.original);
    if trashed && present then Error(w2, AmbiguousArtifact)
    else if trashed then MoveArtifact(w2, a, a.trash, a.original)
    else if present then Done(w2, ())
    else Error(w2, MissingArtifact)
  }

  function PutAllBack(w: World, entries: seq<Artifact>, i: nat): Run<()>
    requires i <= |entries|
    decreases |entries| - i
  {
    if i == |entries| then Done(w, ())
    else
      var (w1, _) :- PutBack(w, entries[i]);
      PutAllBack(w1, entries, i + 1)
  }

  function ReconcilePrepared(w: World, op: DeleteOperation): Run<()> {
    if op.roms == [] then PutAllBack(w, op.entries, 0)
    else
      var (w1, present) :- CountRows(w, op.roms, 0, 0);
      if present == 0 then DropTrash(w1, op.entries, 0)
      else if present < |op.roms| then Error(w1, PartialRows)
      else PutAllBack(w1, op.entries, 0)
  }

  /** Recovery dispatches on the state in its list of pending rows, which may be out of date. */
  function Recover(w: World, listed: FileOperationState, op: DeleteOperation): Run<()> {
    if listed in {Prepared, Failed} then ReconcilePrepared(w, op) else DropTrash(w, op.entries, 0)
  }

  // ---------- the procedures, as they run ----------

  method Move(host: Host, a: Artifact, source: Location, target: Location) returns (r: Outcome<()>)
    modifies host
    ensures r.In(host.Now()) == MoveArtifact(old(host.Now()), a, source, target)
  {
    if a.directory {
      r := host.MoveDirectory(source, target);
    } else {
      r := host.MoveFile(source, target);
    }
  }

  method RemoveFromTrash(host: Host, a: Artifact) returns (r: Outcome<bool>)
    modifies host
    ensures r.In(host.Now()) == RemoveTrash(old(host.Now()), a)
  {
    if a.directory {
      r := host.RemoveTree(a.trash);
    } else {
      r := host.RemoveFile(a.trash);
    }
  }

  method RestoreDeleteEntries(host: Host, entries: seq<Artifact>, n: nat) returns (r: Outcome<()>)
    requires n <= |entries|
    modifies host
    ensures r.In(host.Now()) == Restore(old(host.Now()), entries, n)
  {
    var i := n;
    while i > 0
      invariant 0 <= i <= n
      invariant Restore(host.Now(), entries, i) == Restore(old(host.Now()), entries, n)
    {
      i := i - 1;
      var restored := Move(host, entries[i], entries[i].trash, entries[i].original);
      if restored.Died? {
        return Died;
      }
    }
    return Success(());
  }

  method RestoreAndReport(host: Host, id: string, entries: seq<Artifact>, n: nat, why: Reason)
    returns (r: Outcome<()>)
    requires n <= |entries|
    modifies host
    ensures r.In(host.Now()) == RestoreAndFail(old(host.Now()), id, entries, n, why)
  {
    var _ :- RestoreDeleteEntries(host, entries, n);
    var failed := host.WriteState(id, Failed);
    return if failed.Died? then Died else Failure(why);
  }

  method MoveDeleteEntries(host: Host, id: string, entries: seq<Artifact>) returns (r: Outcome<()>)
    modifies host
    ensures r.In(host.Now()) == MoveEntries(old(host.Now()), id, entries, 0)
  {
    var i := 0;
    while i < |entries|
      invariant 0 <= i <= |entries|
      invariant MoveEntries(host.Now(), id, entries, i) == MoveEntries(old(host.Now()), id, entries, 0)
    {
      var moved := Move(host, entries[i], entries[i].original, entries[i].trash);
      if moved.Died? {
        return Died;
      } else if moved.Failure? {
        r := RestoreAndReport(host, id, entries, i, moved.reason);
        return;
      }
      i := i + 1;
    }
    return Success(());
  }

  method DeleteRomRecords(host: Host, id: string, op: DeleteOperation) returns (r: Outcome<()>)
    modifies host
    ensures r.In(host.Now()) == Delete(old(host.Now()), id, op)
  {
    var _ :- host.InsertRow(id);
    var _ :- MoveDeleteEntries(host, id, op.entries);
    var committed := host.DeleteRows(id, op.RomSet());
    if committed.Died? {
      return Died;
    } else if committed.Failure? {
      r := RestoreAndReport(host, id, op.entries, |op.entries|, committed.reason);
      return;
    }
    r := FinishDeleteCleanup(host, id, op.entries);
  }

  method DropAllTrash(host: Host, entries: seq<Artifact>) returns (r: Outcome<bool>)
    modifies host
    ensures r.In(host.Now()) == DropAll(old(host.Now()), entries, 0, true)
  {
    var i, clean := 0, true;
    while i < |entries|
      invariant 0 <= i <= |entries|
      invariant DropAll(host.Now(), entries, i, clean) == DropAll(old(host.Now()), entries, 0, true)
    {
      var removed := RemoveFromTrash(host, entries[i]);
      if removed.Died? {
        return Died;
      }
      clean := clean && removed.Success?;
      i := i + 1;
    }
    return Success(clean);
  }

  method FinishDeleteCleanup(host: Host, id: string, entries: seq<Artifact>) returns (r: Outcome<()>)
    modifies host
    ensures r.In(host.Now()) == FinishDelete(old(host.Now()), id, entries)
  {
    var clean :- DropAllTrash(host, entries);
    r := host.WriteState(id, if clean then Completed else CleanupPending);
  }

  method CleanupDeleteEntries(host: Host, entries: seq<Artifact>) returns (r: Outcome<()>)
    modifies host
    ensures r.In(host.Now()) == DropTrash(old(host.Now()), entries, 0)
  {
    var i := 0;
    while i < |entries|
      invariant 0 <= i <= |entries|
      invariant DropTrash(host.Now(), entries, i) == DropTrash(old(host.Now()), entries, 0)
    {
      var _ :- RemoveFromTrash(host, entries[i]);
      i := i + 1;
    }
    return Success(());
  }

  method CountPresentRows(host: Host, roms: seq<int>) returns (r: Outcome<nat>)
    modifies host
    ensures r.In(host.Now()) == CountRows(old(host.Now()), roms, 0, 0)
  {
    var i, present := 0, 0;
    while i < |roms|
      invariant 0 <= i <= |roms|
      invariant CountRows(host.Now(), roms, i, present) == CountRows(old(host.Now()), roms, 0, 0)
    {
      var here :- host.HasRom(roms[i]);
      present := if here then present + 1 else present;
      i := i + 1;
    }
    return Success(present);
  }

  method PutArtifactBack(host: Host, a: Artifact) returns (r: Outcome<()>)
    modifies host
    ensures r.In(host.Now()) == PutBack(old(host.Now()), a)
  {
    var trashed :- host.FileExists(a.trash);
    var present :- host.FileExists(a.original);
    if trashed && present {
      return Failure(AmbiguousArtifact);
    } else if trashed {
      r := Move(host, a, a.trash, a.original);
    } else {
      r := if present then Success(()) else Failure(MissingArtifact);
    }
  }

  method ReconcilePreparedDelete(host: Host, op: DeleteOperation) returns (r: Outcome<()>)
    modifies host
    ensures r.In(host.Now()) == ReconcilePrepared(old(host.Now()), op)
  {
    if op.roms != [] {
      var present :- CountPresentRows(host, op.roms);
      if present == 0 {
        r := CleanupDeleteEntries(host, op.entries);
        return;
      } else if present < |op.roms| {
        return Failure(PartialRows);
      }
    }
    var i := 0;
    while i < |op.entries|
      invariant 0 <= i <= |op.entries|
      invariant PutAllBack(host.Now(), op.entries, i) == ReconcilePrepared(old(host.Now()), op)
    {
      var _ :- PutArtifactBack(host, op.entries[i]);
      i := i + 1;
    }
    return Success(());
  }

  method ReconcileDelete(host: Host, listed: FileOperationState, op: DeleteOperation) returns (r: Outcome<()>)
    modifies host
    ensures r.In(host.Now()) == Recover(old(host.Now()), listed, op)
  {
    if listed in {Prepared, Failed} {
      r := ReconcilePreparedDelete(host, op);
    } else {
      r := CleanupDeleteEntries(host, op.entries);
    }
  }
}
