/**
 The managed file store, the operation journal and the rows recovery looks at, as one world that
 changes by primitive steps.

 Every primitive consumes one element of a fault schedule: it proceeds, fails with an I/O error and
 no effect, or never happens because the process dies first. An exhausted schedule means that
 nothing goes wrong any more, so quantifying over schedules covers a crash between any two steps.
 */
module Storage {
  import opened Basics

  /** A file below one managed root; the roots are canonical, so different locations are different files. */
  datatype Location = Location(root: string, relative: string)

  type Bytes = seq<bv8>

  datatype Node = File(bytes: Bytes) | Tree(children: map<string, Bytes>)

  type Files = map<Location, Node>

  /** Two file maps agree about one location. */
  ghost predicate Same(f: Files, g: Files, at: Location) {
    (at in f <==> at in g) && (at in f ==> f[at] == g[at])
  }

  /** A directory removal that is cut short leaves the children named by `kept`. */
  datatype Fault = Proceed | IoError(kept: set<string>) | Crash(kept: set<string>)

  datatype FileOperationState = Prepared | DbCommitted | CleanupPending | Completed | Failed

  datatype Reason =
    | Io
    | NotFound
    | AlreadyExists
    | NotRegularFile
    | NotDirectory
    | RowNotFound
    | JournalRowDisappeared
    | MissingArtifact
    | AmbiguousArtifact
    | PartialRows

  /**
   `committed` names the operations whose database transaction took effect; it stands for the other
   rows such a transaction writes.
   */
  datatype World = World(
    files: Files,
    journal: map<string, FileOperationState>,
    roms: set<int>,
    committed: set<string>,
    faults: seq<Fault>)

  /** The end of a run that started in some world: a value, an error return, or a dead process. */
  datatype Run<+T> =
    | Done(world: World, value: T)
    | Error(world: World, reason: Reason)
    | Crashed(world: World)
  {
    predicate IsFailure() {
      !Done?
    }

    function PropagateFailure<U>(): Run<U>
      requires IsFailure()
    {
      if Error? then Run<U>.Error(world, reason) else Run<U>.Crashed(world)
    }

    function Extract(): (World, T)
      requires Done?
    {
      (world, value)
    }
  }

  /** What a method returns; the world it leaves behind is the host's state. */
  datatype Outcome<+T> = Success(value: T) | Failure(reason: Reason) | Died {
    predicate IsFailure() {
      !Success?
    }

    function PropagateFailure<U>(): Outcome<U>
      requires IsFailure()
    {
      if Failure? then Outcome<U>.Failure(reason) else Outcome<U>.Died
    }

    function Extract(): T
      requires Success?
    {
      value
    }

    function In(w: World): Run<T> {
      match this
      case Success(v) => Done(w, v)
      case Failure(why) => Error(w, why)
      case Died => Crashed(w)
    }
  }

  predicate NoIoErrors(faults: seq<Fault>) {
    forall f :: f in faults ==> !f.IoError?
  }

  function NextFault(w: World): Fault {
    if w.faults == [] then Proceed else w.faults[0]
  }

  function Consume(w: World): World {
    if w.faults == [] then w else w.(faults := w.faults[1..])
  }

  /** The chance of a fault that precedes the effect of each primitive. */
  function Step(w: World): Run<()> {
    match NextFault(w)
    case Proceed => Done(Consume(w), ())
    case IoError(_) => Error(Consume(w), Io)
    case Crash(_) => Crashed(Consume(w))
  }

  function Rename(files: Files, source: Location, target: Location): map<Location, Node>
    requires source in files
  {
    (files - {source})[target := files[source]]
  }

  function Exists(w: World, at: Location): Run<bool> {
    var (w1, _) :- Step(w);
    Done(w1, at in w1.files)
  }

  function MoveManaged(w: World, source: Location, target: Location): Run<()> {
    var (w1, _) :- Step(w);
    if source !in w1.files then Error(w1, NotFound)
    else if !w1.files[source].File? then Error(w1, NotRegularFile)
    else if target in w1.files then Error(w1, AlreadyExists)
    else Done(w1.(files := Rename(w1.files, source, target)), ())
  }

  function MoveManagedDirectory(w: World, source: Location, target: Location): Run<()> {
    var (w1, _) :- Step(w);
    if source !in w1.files then Error(w1, NotFound)
    else if !w1.files[source].Tree? then Error(w1, NotDirectory)
    else if target in w1.files then Error(w1, AlreadyExists)
    else Done(w1.(files := Rename(w1.files, source, target)), ())
  }

  function Remove(w: World, at: Location): Run<bool> {
    var (w1, _) :- Step(w);
    if at !in w1.files then Done(w1, false)
    else if !w1.files[at].File? then Error(w1, NotRegularFile)
    else Done(w1.(files := w1.files - {at}), true)
  }

  /** Removing a directory is not atomic: a fault in the middle leaves some of its children. */
  function RemoveDirectoryAll(w: World, at: Location): Run<bool> {
    var w1 := Consume(w);
    if NextFault(w).Proceed? then
      if at !in w1.files then Done(w1, false)
      else if !w1.files[at].Tree? then Error(w1, NotDirectory)
      else Done(w1.(files := w1.files - {at}), true)
    else
      var w2 := if at in w1.files && w1.files[at].Tree?
                then w1.(files := w1.files[at := Shrunk(w1.files[at], NextFault(w).kept)])
                else w1;
      if NextFault(w).IoError? then Error(w2, Io) else Crashed(w2)
  }

  function Shrunk(node: Node, kept: set<string>): Node
    requires node.Tree?
  {
    Tree(map name | name in node.children && name in kept :: node.children[name])
  }

  function WriteNewAtomic(w: World, at: Location, bytes: Bytes): Run<()> {
    var (w1, _) :- Step(w);
    if at in w1.files then Error(w1, AlreadyExists)
    else Done(w1.(files := w1.files[at := File(bytes)]), ())
  }

  function CreateRow(w: World, id: string): Run<()> {
    var (w1, _) :- Step(w);
    if id in w1.journal then Error(w1, AlreadyExists)
    else Done(w1.(journal := w1.journal[id := Prepared]), ())
  }

  /** Completed is sticky: no other state overwrites it, and a missing row is not an error. */
  function Written(journal: map<string, FileOperationState>, id: string, state: FileOperationState)
    : map<string, FileOperationState>
  {
    if id in journal && (journal[id] != Completed || state == Completed) then journal[id := state] else journal
  }

  function SetState(w: World, id: string, state: FileOperationState): Run<()> {
    var (w1, _) :- Step(w);
    Done(w1.(journal := Written(w1.journal, id, state)), ())
  }

  function StateById(w: World, id: string): Run<Option<FileOperationState>> {
    var (w1, _) :- Step(w);
    Done(w1, if id in w1.journal then Some(w1.journal[id]) else None)
  }

  function RomExists(w: World, rom: int): Run<bool> {
    var (w1, _) :- Step(w);
    Done(w1, rom in w1.roms)
  }

  /** The cover transaction: the ROM row, its cover rows and the journal state change together. */
  function CommitCover(w: World, id: string, rom: int): Run<()> {
    var (w1, _) :- Step(w);
    if rom !in w1.roms || id !in w1.journal then Error(w1, RowNotFound)
    else Done(w1.(journal := w1.journal[id := DbCommitted], committed := w1.committed + {id}), ())
  }

  /** The delete transaction: all the listed rows go, or none does. */
  function CommitDelete(w: World, id: string, roms: set<int>): Run<()> {
    var (w1, _) :- Step(w);
    if !(roms <= w1.roms) || id !in w1.journal then Error(w1, RowNotFound)
    else Done(
      w1.(journal := w1.journal[id := DbCommitted], committed := w1.committed + {id}, roms := w1.roms - roms), ())
  }

  /** A Teatro process at work: the state of the disk and the database, updated in place. */
  class Host {
    var files: Files
    var journal: map<string, FileOperationState>
    var roms: set<int>
    var committed: set<string>
    var faults: seq<Fault>

    ghost function Now(): World
      reads this
    {
      World(files, journal, roms, committed, faults)
    }

    method Take() returns (fault: Fault)
      modifies `faults
      ensures fault == NextFault(old(Now())) && Now() == Consume(old(Now()))
    {
      fault := Proceed;
      if faults != [] {
        fault, faults := faults[0], faults[1..];
      }
    }

    method TakeStep() returns (r: Outcome<()>)
      modifies `faults
      ensures r.In(Now()) == Step(old(Now()))
    {
      var fault := Take();
      match fault
      case Proceed => r := Success(());
      case IoError(_) => r := Failure(Io);
      case Crash(_) => r := Died;
    }

    method FileExists(at: Location) returns (r: Outcome<bool>)
      modifies `faults
      ensures r.In(Now()) == Exists(old(Now()), at)
    {
      var _ :- TakeStep();
      return Success(at in files);
    }

    method MoveFile(source: Location, target: Location) returns (r: Outcome<()>)
      modifies this
      ensures r.In(Now()) == MoveManaged(old(Now()), source, target)
    {
      var _ :- TakeStep();
      if source !in files {
        return Failure(NotFound);
      } else if !files[source].File? {
        return Failure(NotRegularFile);
      } else if target in files {
        return Failure(AlreadyExists);
      }
      files := Rename(files, source, target);
      return Success(());
    }

    method MoveDirectory(source: Location, target: Location) returns (r: Outcome<()>)
      modifies this
      ensures r.In(Now()) == MoveManagedDirectory(old(Now()), source, target)
    {
      var _ :- TakeStep();
      if source !in files {
        return Failure(NotFound);
      } else if !files[source].Tree? {
        return Failure(NotDirectory);
      } else if target in files {
        return Failure(AlreadyExists);
      }
      files := Rename(files, source, target);
      return Success(());
    }

    method RemoveFile(at: Location) returns (r: Outcome<bool>)
      modifies this
      ensures r.In(Now()) == Remove(old(Now()), at)
    {
      var _ :- TakeStep();
      if at !in files {
        return Success(false);
      } else if !files[at].File? {
        return Failure(NotRegularFile);
      }
      files := files - {at};
      return Success(true);
    }

    method RemoveTree(at: Location) returns (r: Outcome<bool>)
      modifies this
      ensures r.In(Now()) == RemoveDirectoryAll(old(Now()), at)
    {
      var fault := Take();
      if fault.Proceed? {
        if at !in files {
          return Success(false);
        } else if !files[at].Tree? {
          return Failure(NotDirectory);
        }
        files := files - {at};
        return Success(true);
      }
      if at in files && files[at].Tree? {
        files := files[at := Shrunk(files[at], fault.kept)];
      }
      return if fault.IoError? then Failure(Io) else Died;
    }

    method WriteNew(at: Location, bytes: Bytes) returns (r: Outcome<()>)
      modifies this
      ensures r.In(Now()) == WriteNewAtomic(old(Now()), at, bytes)
    {
      var _ :- TakeStep();
      if at in files {
        return Failure(AlreadyExists);
      }
      files := files[at := File(bytes)];
      return Success(());
    }

    method InsertRow(id: string) returns (r: Outcome<()>)
      modifies this
      ensures r.In(Now()) == CreateRow(old(Now()), id)
    {
      var _ :- TakeStep();
      if id in journal {
        return Failure(AlreadyExists);
      }
      journal := journal[id := Prepared];
      return Success(());
    }

    method WriteState(id: string, state: FileOperationState) returns (r: Outcome<()>)
      modifies this
      ensures r.In(Now()) == SetState(old(Now()), id, state)
    {
      var _ :- TakeStep();
      if id in journal && (journal[id] != Completed || state == Completed) {
        journal := journal[id := state];
      }
      return Success(());
    }

    method ReadState(id: string) returns (r: Outcome<Option<FileOperationState>>)
      modifies `faults
      ensures r.In(Now()) == StateById(old(Now()), id)
    {
      var _ :- TakeStep();
      return Success(if id in journal then Some(journal[id]) else None);
    }

    method HasRom(rom: int) returns (r: Outcome<bool>)
      modifies `faults
      ensures r.In(Now()) == RomExists(old(Now()), rom)
    {
      var _ :- TakeStep();
      return Success(rom in roms);
    }

    method SaveCover(id: string, rom: int) returns (r: Outcome<()>)
      modifies this
      ensures r.In(Now()) == CommitCover(old(Now()), id, rom)
    {
      var _ :- TakeStep();
      if rom !in roms || id !in journal {
        return Failure(RowNotFound);
      }
      journal, committed := journal[id := DbCommitted], committed + {id};
      return Success(());
    }

    method DeleteRows(id: string, gone: set<int>) returns (r: Outcome<()>)
      modifies this
      ensures r.In(Now()) == CommitDelete(old(Now()), id, gone)
    {
      var _ :- TakeStep();
      if !(gone <= roms) || id !in journal {
        return Failure(RowNotFound);
      }
      journal, committed, roms := journal[id := DbCommitted], committed + {id}, roms - gone;
      return Success(());
    }
  }

  // ---------- laws of the primitives ----------

  /** What is in both file maps is the same in both. */
  ghost predicate KeepsWhatStays(f: Files, g: Files) {
    forall at :: at in f && at in g ==> g[at] == f[at]
  }

  /** No primitive puts anything in the place of a file or directory, under any fault. */
  lemma NothingIsOverwritten(w: World, source: Location, target: Location, bytes: Bytes)
    ensures KeepsWhatStays(w.files, MoveManaged(w, source, target).world.files)
    ensures KeepsWhatStays(w.files, MoveManagedDirectory(w, source, target).world.files)
    ensures KeepsWhatStays(w.files, WriteNewAtomic(w, target, bytes).world.files)
    ensures KeepsWhatStays(w.files, Remove(w, source).world.files)
    ensures KeepsWhatStays(w.files - {source}, RemoveDirectoryAll(w, source).world.files)
  {
  }

  /** A removal that is cut short leaves a directory with some of its files, each whole. */
  lemma RemovalOnlyRemoves(w: World, at: Location)
    ensures var g := RemoveDirectoryAll(w, at).world.files;
      && g.Keys <= w.files.Keys
      && (at in g && at in w.files && w.files[at].Tree? ==>
            g[at].Tree? && forall name :: name in g[at].children ==>
              name in w.files[at].children && g[at].children[name] == w.files[at].children[name])
      && (at in w.files && w.files[at].File? ==> g == w.files)
  {
  }

  /** Undisturbed, a move goes through exactly for a source of its kind and a free target, and back again. */
  lemma MovingBackUndoes(w: World, source: Location, target: Location)
    requires w.faults == []
    ensures var r := MoveManaged(w, source, target);
      && (r.Done? <==> source in w.files && w.files[source].File? && target !in w.files)
      && (!r.Done? ==> r.world == w)
      && (r.Done? ==> source !in r.world.files && MoveManaged(r.world, target, source) == Done(w, ()))
    ensures var r := MoveManagedDirectory(w, source, target);
      && (r.Done? <==> source in w.files && w.files[source].Tree? && target !in w.files)
      && (!r.Done? ==> r.world == w)
      && (r.Done? ==> source !in r.world.files && MoveManagedDirectory(r.world, target, source) == Done(w, ()))
  {
    if source in w.files && target !in w.files {
      var f := Rename(w.files, source, target);
      assert Rename(f, target, source) == w.files;
    }
  }

  /** A completed row stays completed whatever is written, a missing one stays missing, and others do not change. */
  lemma CompletedIsSticky(journal: map<string, FileOperationState>, id: string, state: FileOperationState)
    ensures var next := Written(journal, id, state);
      && next.Keys == journal.Keys
      && (forall other :: other in journal && other != id ==> next[other] == journal[other])
      && (id in journal && journal[id] == Completed ==> next[id] == Completed)
      && (id in journal && journal[id] != Completed ==> next[id] == state)
  {
  }

  /** Undisturbed, a deletion takes its rows all together, and none if one is missing. */
  lemma RowsGoTogether(w: World, id: string, roms: set<int>)
    requires w.faults == [] && id in w.journal
    ensures var r := CommitDelete(w, id, roms);
      && r.world.files == w.files
      && (roms <= w.roms ==> r.Done? && r.world.roms == w.roms - roms && r.world.journal[id] == DbCommitted)
      && (!(roms <= w.roms) ==> r == Error(w, RowNotFound))
  {
  }
}
