/** How deletes end: undisturbed, refused, and with one I/O error at any place. */
module DeleteOutcomes {
  import opened Storage
  import opened Deletes
  import opened DeleteSafety

  // ---------- schedules ----------

  /** The next `n` steps go well. */
  predicate Calm(faults: seq<Fault>, n: nat) {
    forall j :: 0 <= j < n && j < |faults| ==> faults[j].Proceed?
  }

  function Later(faults: seq<Fault>, n: nat): seq<Fault> {
    if n <= |faults| then faults[n..] else []
  }

  /** `n` steps go well, the next one meets an I/O error, and then nothing else goes wrong. */
  function OneError(n: nat, kept: set<string>): seq<Fault> {
    seq(n, _ => Proceed) + [IoError(kept)]
  }

  // ---------- moving and restoring ----------

  lemma MoveBack(w: World, a: Artifact, before: Files)
    requires w.faults == [] && a.original != a.trash && Trashed(w.files, before, a)
    ensures var r := MoveArtifact(w, a, a.trash, a.original);
      && r == Done(w.(files := r.world.files), ())
      && OnlyTouches(w, r.world, a) && Kept(r.world.files, before, a)
  {
  }

  /** Undisturbed, everything that was moved comes back. */
  lemma {:induction false} RestoreCompletes(w: World, entries: seq<Artifact>, n: nat, before: Files)
    requires w.faults == [] && n <= |entries| && Separate(entries)
    requires forall j :: 0 <= j < n ==> Trashed(w.files, before, entries[j])
    requires forall j :: n <= j < |entries| ==> Kept(w.files, before, entries[j])
    ensures var r := Restore(w, entries, n);
      && r == Done(w.(files := r.world.files), ()) && AllKept(r.world.files, before, entries)
      && OnlyFiles(w.files, r.world.files, entries)
    decreases n
  {
    if n > 0 {
      var a := entries[n - 1];
      MoveBack(w, a, before);
      var w1 := MoveArtifact(w, a, a.trash, a.original).world;
      TouchesArea(w, w1, entries, n - 1);
      forall j | 0 <= j < |entries| && j != n - 1
        ensures Trashed(w1.files, before, entries[j]) == Trashed(w.files, before, entries[j])
        ensures Kept(w1.files, before, entries[j]) == Kept(w.files, before, entries[j])
      {
        OthersKeep(w, w1, before, entries, n - 1, j);
      }
      RestoreCompletes(w1, entries, n - 1, before);
      OnlyFilesTransitive(w.files, w1.files, Restore(w1, entries, n - 1).world.files, entries);
    }
  }

  /** Restoring is best effort: an entry that meets an I/O error stays in trash, and all others come back. */
  lemma {:induction false} RestoreSkips(w: World, entries: seq<Artifact>, n: nat, k: nat, kept: set<string>,
                                        before: Files)
    requires k < n <= |entries| && Separate(entries) && w.faults == OneError(n - 1 - k, kept)
    requires forall j :: 0 <= j < n ==> Trashed(w.files, before, entries[j])
    requires forall j :: n <= j < |entries| ==> Kept(w.files, before, entries[j])
    ensures var r := Restore(w, entries, n);
      && r == Done(w.(files := r.world.files, faults := []), ())
      && Trashed(r.world.files, before, entries[k])
      && forall j :: 0 <= j < |entries| && j != k ==> Kept(r.world.files, before, entries[j])
    decreases n
  {
    var a := entries[n - 1];
    if n - 1 == k {
      assert w.faults == [IoError(kept)];
      RestoreRest(w.(faults := []), entries, k, before);
    } else {
      assert w.faults[0] == Proceed && w.faults[1..] == OneError(n - 2 - k, kept);
      MoveBackCalm(w, a, before);
      var w1 := MoveArtifact(w, a, a.trash, a.original).world;
      OneBack(w, w1, entries, n - 1, before);
      RestoreSkips(w1, entries, n - 1, k, kept, before);
    }
  }

  lemma MoveBackCalm(w: World, a: Artifact, before: Files)
    requires NextFault(w).Proceed? && a.original != a.trash && Trashed(w.files, before, a)
    ensures var r := MoveArtifact(w, a, a.trash, a.original);
      && r == Done(Consume(w).(files := r.world.files), ())
      && OnlyTouches(w, r.world, a) && Kept(r.world.files, before, a)
  {
  }

  lemma OneBack(w: World, w1: World, entries: seq<Artifact>, i: nat, before: Files)
    requires i < |entries| && Separate(entries) && OnlyTouches(w, w1, entries[i])
    ensures forall j :: 0 <= j < |entries| && j != i ==>
      Trashed(w1.files, before, entries[j]) == Trashed(w.files, before, entries[j]) &&
      Kept(w1.files, before, entries[j]) == Kept(w.files, before, entries[j])
  {
    forall j | 0 <= j < |entries| && j != i
      ensures Trashed(w1.files, before, entries[j]) == Trashed(w.files, before, entries[j])
      ensures Kept(w1.files, before, entries[j]) == Kept(w.files, before, entries[j])
    {
      OthersKeep(w, w1, before, entries, i, j);
    }
  }

  /** The entries before the one that stays in trash come back. */
  lemma {:induction false} RestoreRest(w: World, entries: seq<Artifact>, n: nat, before: Files)
    requires w.faults == [] && n <= |entries| && Separate(entries)
    requires forall j :: 0 <= j < n ==> Trashed(w.files, before, entries[j])
    ensures var r := Restore(w, entries, n);
      && r == Done(w.(files := r.world.files), ())
      && (forall j :: 0 <= j < n ==> Kept(r.world.files, before, entries[j]))
      && forall j :: n <= j < |entries| ==>
           Trashed(r.world.files, before, entries[j]) == Trashed(w.files, before, entries[j]) &&
           Kept(r.world.files, before, entries[j]) == Kept(w.files, before, entries[j])
    decreases n
  {
    if n > 0 {
      var a := entries[n - 1];
      MoveBack(w, a, before);
      var w1 := MoveArtifact(w, a, a.trash, a.original).world;
      OneBack(w, w1, entries, n - 1, before);
      RestoreRest(w1, entries, n - 1, before);
    }
  }

  /** Entries in place and nothing else changed: the file map is the one before. */
  lemma KeptIsBefore(f: Files, before: Files, entries: seq<Artifact>)
    requires AllKept(f, before, entries) && AllKept(before, before, entries) && OnlyFiles(before, f, entries)
    ensures f == before
  {
    forall at ensures Same(f, before, at) {
      if at in Area(entries) {
        var a :| a in entries && at in Footprint(a);
        var i :| 0 <= i < |entries| && entries[i] == a;
        assert Kept(f, before, entries[i]) && Kept(before, before, entries[i]);
      } else {
        assert Same(before, f, at);
      }
    }
    SameEverywhere(f, before);
  }

  lemma SameEverywhere(f: Files, g: Files)
    requires forall at :: Same(f, g, at)
    ensures f == g
  {
    forall at ensures at in f <==> at in g {
      assert Same(f, g, at);
    }
    forall at | at in f ensures f[at] == g[at] {
      assert Same(f, g, at);
    }
  }

  /** The restore uses the first entries only. */
  lemma {:induction false} RestorePrefix(w: World, entries: seq<Artifact>, n: nat, m: nat)
    requires n <= m <= |entries|
    ensures Restore(w, entries[..m], n) == Restore(w, entries, n)
    decreases n
  {
    if n > 0 {
      assert entries[..m][n - 1] == entries[n - 1];
      var r := MoveArtifact(w, entries[n - 1], entries[n - 1].trash, entries[n - 1].original);
      if !r.Crashed? {
        RestorePrefix(r.world, entries, n - 1, m);
      }
    }
  }

  lemma RestoreAndFailUndoes(w: World, id: string, entries: seq<Artifact>, n: nat, why: Reason, before: Files)
    requires w.faults == [] && n <= |entries| && Separate(entries[..n]) && id in w.journal && w.journal[id] != Completed
    requires forall j :: 0 <= j < n ==> Trashed(w.files, before, entries[j])
    requires AllKept(before, before, entries[..n]) && OnlyFiles(before, w.files, entries[..n])
    ensures RestoreAndFail(w, id, entries, n, why) ==
            Error(w.(files := before, journal := w.journal[id := Failed]), why)
  {
    var moved := entries[..n];
    RestoreCompletes(w, moved, n, before);
    RestorePrefix(w, entries, n, n);
    var f := Restore(w, entries, n).world.files;
    OnlyFilesTransitive(before, w.files, f, moved);
    KeptIsBefore(f, before, moved);
  }

  lemma MoveAway(w: World, a: Artifact, before: Files)
    requires NextFault(w).Proceed? && a.original != a.trash && Kept(w.files, before, a)
    ensures var r := MoveArtifact(w, a, a.original, a.trash);
      && r == Done(Consume(w).(files := r.world.files), ())
      && OnlyTouches(w, r.world, a) && Trashed(r.world.files, before, a)
  {
  }

  /** While nothing goes wrong the first `m` entries are moved, and the rest is as if begun there. */
  lemma {:induction false} MovesGoOn(w: World, id: string, entries: seq<Artifact>, i: nat, m: nat, before: Files)
    returns (w': World)
    requires i <= m <= |entries| && Separate(entries[..m]) && Calm(w.faults, m - i)
    requires forall j :: 0 <= j < i ==> Trashed(w.files, before, entries[j])
    requires forall j :: i <= j < m ==> Kept(w.files, before, entries[j])
    ensures MoveEntries(w, id, entries, i) == MoveEntries(w', id, entries, m)
    ensures w' == w.(files := w'.files, faults := Later(w.faults, m - i))
    ensures OnlyFiles(w.files, w'.files, entries[..m])
    ensures forall j :: 0 <= j < m ==> Trashed(w'.files, before, entries[j])
    decreases m - i
  {
    var moved := entries[..m];
    w' := w;
    if i == m {
      assert Later(w.faults, 0) == w.faults;
    } else {
      assert moved[i] == entries[i];
      MoveAway(w, entries[i], before);
      var w1 := MoveArtifact(w, entries[i], entries[i].original, entries[i].trash).world;
      TouchesArea(w, w1, moved, i);
      forall j | 0 <= j < m && j != i
        ensures Trashed(w1.files, before, entries[j]) == Trashed(w.files, before, entries[j])
        ensures Kept(w1.files, before, entries[j]) == Kept(w.files, before, entries[j])
      {
        assert moved[j] == entries[j];
        OthersKeep(w, w1, before, moved, i, j);
      }
      w' := MovesGoOn(w1, id, entries, i + 1, m, before);
      OnlyFilesTransitive(w.files, w1.files, w'.files, moved);
    }
  }

  // ---------- how a delete ends ----------

  /** A fresh id, and every entry in place as it was listed. */
  ghost predicate Startable(w: World, id: string, op: DeleteOperation) {
    id !in w.journal && Separate(op.entries) && AllKept(w.files, w.files, op.entries)
  }

  /** Removing what is in trash, undisturbed. */
  lemma {:induction false} DropAllCompletes(w: World, entries: seq<Artifact>, i: nat, clean: bool)
    requires w.faults == [] && i <= |entries| && Separate(entries) && AllLeaving(w.files, entries)
    ensures var r := DropAll(w, entries, i, clean); r == Done(w.(files := r.world.files), clean)
    decreases |entries| - i
  {
    if i < |entries| {
      RemoveTrashStep(w, entries, i);
      var r := RemoveTrash(w, entries[i]);
      assert Leaving(w.files, entries[i]);
      assert r.Done? && r.world == w.(files := r.world.files);
      DropAllCompletes(r.world, entries, i + 1, clean);
    }
  }

  lemma AllMoved(w: World, id: string, op: DeleteOperation) returns (w': World)
    requires Startable(w, id, op) && Calm(w.faults, |op.entries| + 1)
    ensures Delete(w, id, op) == CommitRows(w', id, op)
    ensures w' == w.(files := w'.files, journal := w.journal[id := Prepared],
                     faults := Later(w.faults, |op.entries| + 1))
    ensures OnlyFiles(w.files, w'.files, op.entries)
    ensures forall j :: 0 <= j < |op.entries| ==> Trashed(w'.files, w.files, op.entries[j])
  {
    var w1 := CreateRow(w, id).world;
    OneStepLater(w.faults, |op.entries|);
    assert op.entries[..|op.entries|] == op.entries;
    w' := MovesGoOn(w1, id, op.entries, 0, |op.entries|, w.files);
  }

  lemma OneStepLater(faults: seq<Fault>, n: nat)
    requires Calm(faults, n + 1)
    ensures var rest := if faults == [] then [] else faults[1..];
      Calm(rest, n) && Later(rest, n) == Later(faults, n + 1)
  {
  }

  lemma Committing(w: World, id: string, op: DeleteOperation, rest: seq<Fault>) returns (w': World)
    requires Startable(w, id, op) && op.RomSet() <= w.roms
    requires Calm(w.faults, |op.entries| + 2) && Later(w.faults, |op.entries| + 2) == rest
    ensures Delete(w, id, op) == FinishDelete(w', id, op.entries)
    ensures w' == w.(files := w'.files, journal := w.journal[id := DbCommitted], roms := w.roms - op.RomSet(),
                     committed := w.committed + {id}, faults := rest)
    ensures OnlyFiles(w.files, w'.files, op.entries) && AllLeaving(w'.files, op.entries)
  {
    var w1 := AllMoved(w, id, op);
    assert w1.faults != [] ==> w1.faults[0] == w.faults[|op.entries| + 1];
    w' := CommitDelete(w1, id, op.RomSet()).world;
    forall j | 0 <= j < |op.entries| ensures Leaving(w'.files, op.entries[j]) {
      assert Trashed(w1.files, w.files, op.entries[j]);
    }
    assert w.journal[id := Prepared][id := DbCommitted] == w.journal[id := DbCommitted];
  }

  /**
   Undisturbed, a delete whose listed rows all exist succeeds: its row is completed and committed, the
   listed rows are gone and no others, and so are all originals and all trash, and no other file.
   */
  lemma UndisturbedDelete(w: World, id: string, op: DeleteOperation)
    requires w.faults == [] && Startable(w, id, op) && op.RomSet() <= w.roms
    ensures var r := Delete(w, id, op);
      && r == Done(w.(files := r.world.files, journal := w.journal[id := Completed],
                      roms := w.roms - op.RomSet(), committed := w.committed + {id}), ())
      && AllGone(r.world.files, op.entries) && OnlyFiles(w.files, r.world.files, op.entries)
  {
    var w1 := Committing(w, id, op, []);
    DropAllSafe(w1, op.entries, 0, true);
    DropAllCompletes(w1, op.entries, 0, true);
    OnlyFilesTransitive(w.files, w1.files, DropAll(w1, op.entries, 0, true).world.files, op.entries);
    assert w.journal[id := DbCommitted][id := Completed] == w.journal[id := Completed];
  }

  /** Undisturbed, a delete that lists a row which is gone fails, with every file and row as before. */
  lemma DeleteWithoutRow(w: World, id: string, op: DeleteOperation)
    requires w.faults == [] && Startable(w, id, op) && !(op.RomSet() <= w.roms)
    ensures Delete(w, id, op) == Error(w.(journal := w.journal[id := Failed]), RowNotFound)
  {
    var w1 := AllMoved(w, id, op);
    assert op.entries[..|op.entries|] == op.entries;
    RestoreAndFailUndoes(w1, id, op.entries, |op.entries|, RowNotFound, w.files);
    assert w.journal[id := Prepared][id := Failed] == w.journal[id := Failed];
  }

  /** The move that fails: what was moved before it comes back, and the operation is failed. */
  lemma FailingMove(w: World, id: string, op: DeleteOperation, k: nat, why: Reason, before: Files)
    requires k < |op.entries| && Separate(op.entries[..k]) && id in w.journal && w.journal[id] == Prepared
    requires forall j :: 0 <= j < k ==> Trashed(w.files, before, op.entries[j])
    requires AllKept(before, before, op.entries[..k]) && OnlyFiles(before, w.files, op.entries[..k])
    requires MoveArtifact(w, op.entries[k], op.entries[k].original, op.entries[k].trash) == Error(w.(faults := []), why)
    ensures MoveEntries(w, id, op.entries, k) ==
            Error(w.(files := before, journal := w.journal[id := Failed], faults := []), why)
  {
    RestoreAndFailUndoes(w.(faults := []), id, op.entries, k, why, before);
  }

  lemma OneErrorLater(n: nat, m: nat, kept: set<string>)
    requires m <= n
    ensures Calm(OneError(n, kept), m) && Later(OneError(n, kept), m) == OneError(n - m, kept)
  {
  }

  lemma PrefixIsSeparate(entries: seq<Artifact>, before: Files, k: nat)
    requires Separate(entries) && k <= |entries| && AllKept(before, before, entries)
    ensures Separate(entries[..k]) && AllKept(before, before, entries[..k])
  {
    forall j | 0 <= j < k ensures Kept(before, before, entries[..k][j]) {
      assert Kept(before, before, entries[j]);
    }
  }

  /** One I/O error later than the row: the entries before it are moved. */
  lemma MovedUntilError(w: World, id: string, op: DeleteOperation, n: nat, kept: set<string>) returns (w': World)
    requires Startable(w, id, op) && n <= |op.entries| && w.faults == OneError(n + 1, kept)
    ensures CreateRow(w, id).Done?
    ensures MoveEntries(CreateRow(w, id).world, id, op.entries, 0) == MoveEntries(w', id, op.entries, n)
    ensures w' == w.(files := w'.files, journal := w.journal[id := Prepared], faults := [IoError(kept)])
    ensures OnlyFiles(w.files, w'.files, op.entries[..n])
    ensures forall j :: 0 <= j < n ==> Trashed(w'.files, w.files, op.entries[j])
  {
    OneErrorLater(n + 1, 1, kept);
    assert w.faults[0] == Proceed && w.faults[1..] == OneError(n, kept);
    var w1 := CreateRow(w, id).world;
    assert w1 == w.(journal := w.journal[id := Prepared], faults := OneError(n, kept));
    OneErrorLater(n, n, kept);
    PrefixIsSeparate(op.entries, w.files, n);
    w' := MovesGoOn(w1, id, op.entries, 0, n, w.files);
    assert w'.faults == OneError(0, kept) == [IoError(kept)];
  }

  lemma ErrorAtMove(w: World, id: string, op: DeleteOperation, n: nat, kept: set<string>)
    requires Startable(w, id, op) && n < |op.entries| && w.faults == OneError(n + 1, kept)
    ensures Delete(w, id, op) == Error(w.(journal := w.journal[id := Failed], faults := []), Io)
  {
    var w2 := MovedUntilError(w, id, op, n, kept);
    PrefixIsSeparate(op.entries, w.files, n);
    assert MoveArtifact(w2, op.entries[n], op.entries[n].original, op.entries[n].trash) == Error(w2.(faults := []), Io);
    FailingMove(w2, id, op, n, Io, w.files);
    assert w.journal[id := Prepared][id := Failed] == w.journal[id := Failed];
  }

  lemma ErrorAtCommit(w: World, id: string, op: DeleteOperation, kept: set<string>)
    requires Startable(w, id, op) && w.faults == OneError(|op.entries| + 1, kept)
    ensures Delete(w, id, op) == Error(w.(journal := w.journal[id := Failed], faults := []), Io)
  {
    var w2 := MovedUntilError(w, id, op, |op.entries|, kept);
    assert op.entries[..|op.entries|] == op.entries;
    assert CommitDelete(w2, id, op.RomSet()) == Error(w2.(faults := []), Io);
    RestoreAndFailUndoes(w2.(faults := []), id, op.entries, |op.entries|, Io, w.files);
    assert w.journal[id := Prepared][id := Failed] == w.journal[id := Failed];
  }

  /**
   A delete that meets one I/O error before its commit, at any step, fails with every file, row and
   commit as before: without a row if that could not be written, and with a failed one otherwise.
   */
  lemma DeleteWithOneError(w: World, id: string, op: DeleteOperation, n: nat, kept: set<string>)
    requires Startable(w, id, op) && n <= |op.entries| + 1 && w.faults == OneError(n, kept)
    ensures Delete(w, id, op) ==
            Error(w.(journal := if n == 0 then w.journal else w.journal[id := Failed], faults := []), Io)
  {
    if n == 0 {
      assert w.faults == [IoError(kept)];
    } else if n <= |op.entries| {
      ErrorAtMove(w, id, op, n - 1, kept);
    } else {
      ErrorAtCommit(w, id, op, kept);
    }
  }

  /** Not where it was listed, of the wrong kind, or with something in its trash place. */
  predicate Unmovable(f: Files, a: Artifact) {
    a.original !in f || (f[a.original].Tree? != a.directory) || a.trash in f
  }

  /** Undisturbed, a delete fails at the first entry it cannot move, with every file as before. */
  lemma DeleteRefused(w: World, id: string, op: DeleteOperation, k: nat)
    requires w.faults == [] && id !in w.journal && k < |op.entries| && Separate(op.entries[..k + 1])
    requires AllKept(w.files, w.files, op.entries[..k]) && Unmovable(w.files, op.entries[k])
    ensures var r := Delete(w, id, op);
      r.Error? && r.world == w.(journal := w.journal[id := Failed]) &&
      r.reason in {NotFound, NotRegularFile, NotDirectory, AlreadyExists}
  {
    var w1 := CreateRow(w, id).world;
    var a := op.entries[k];
    assert op.entries[..k + 1][k] == a && op.entries[..k] == op.entries[..k + 1][..k];
    forall i, j | 0 <= i < k && 0 <= j < k && i != j ensures Footprint(op.entries[i]) !! Footprint(op.entries[j]) {
      assert op.entries[..k + 1][i] == op.entries[i] && op.entries[..k + 1][j] == op.entries[j];
    }
    forall i | 0 <= i < k
      ensures op.entries[i].original != op.entries[i].trash && Kept(w.files, w.files, op.entries[i])
      ensures Footprint(op.entries[i]) !! Footprint(a)
    {
      assert op.entries[..k + 1][i] == op.entries[i] && op.entries[..k][i] == op.entries[i];
    }
    var w2 := MovesGoOn(w1, id, op.entries, 0, k, w.files);
    OutsideStays(w1.files, w2.files, op.entries[..k], a);
    var r := MoveArtifact(w2, a, a.original, a.trash);
    assert r.Error? && r.world == w2.(faults := []);
    FailingMove(w2, id, op, k, r.reason, w.files);
    assert w.journal[id := Prepared][id := Failed] == w.journal[id := Failed];
  }

  lemma OutsideStays(f: Files, g: Files, entries: seq<Artifact>, a: Artifact)
    requires OnlyFiles(f, g, entries) && forall i :: 0 <= i < |entries| ==> Footprint(entries[i]) !! Footprint(a)
    ensures Same(f, g, a.original) && Same(f, g, a.trash)
  {
    assert a.original in Footprint(a) && a.trash in Footprint(a);
    forall b | b in entries ensures a.original !in Footprint(b) && a.trash !in Footprint(b) {
      var i :| 0 <= i < |entries| && entries[i] == b;
    }
    assert a.original !in Area(entries) && a.trash !in Area(entries);
  }

  // ---------- after the commit ----------

  /** A cleanup that cannot remove one entry goes on with the others and stays pending. */
  lemma {:induction false} DropAllSkips(w: World, entries: seq<Artifact>, i: nat, clean: bool, n: nat,
                                        kept: set<string>)
    requires i <= |entries| && Separate(entries) && AllLeaving(w.files, entries)
    requires i + n < |entries| && w.faults == OneError(n, kept)
    requires forall j :: 0 <= j < i ==> Gone(w.files, entries[j])
    ensures var r := DropAll(w, entries, i, clean);
      && r == Done(w.(files := r.world.files, faults := []), false)
      && forall j :: 0 <= j < |entries| && j != i + n ==> Gone(r.world.files, entries[j])
    decreases n
  {
    OneErrorLater(n, if n > 0 then 1 else 0, kept);
    RemoveTrashStep(w, entries, i);
    var r := RemoveTrash(w, entries[i]);
    assert Leaving(w.files, entries[i]);
    if n > 0 {
      assert w.faults[0] == Proceed && r.Done?;
      assert r.world == w.(files := r.world.files, faults := OneError(n - 1, kept));
      DropAllSkips(r.world, entries, i + 1, clean, n - 1, kept);
    } else {
      assert w.faults == [IoError(kept)] && r.Error? && r.world == w.(files := r.world.files, faults := []);
      DropAllRest(r.world, entries, i + 1, i);
    }
  }

  lemma {:induction false} DropAllRest(w: World, entries: seq<Artifact>, i: nat, left: nat)
    requires w.faults == [] && left < i <= |entries| && Separate(entries) && AllLeaving(w.files, entries)
    requires forall j :: 0 <= j < i && j != left ==> Gone(w.files, entries[j])
    ensures var r := DropAll(w, entries, i, false);
      && r == Done(w.(files := r.world.files), false)
      && forall j :: 0 <= j < |entries| && j != left ==> Gone(r.world.files, entries[j])
    decreases |entries| - i
  {
    if i < |entries| {
      RemoveTrashStep(w, entries, i);
      var r := RemoveTrash(w, entries[i]);
      assert Leaving(w.files, entries[i]);
      assert r.Done? && r.world == w.(files := r.world.files);
      DropAllRest(r.world, entries, i + 1, left);
    }
  }

  lemma FinishWithLateError(w: World, id: string, entries: seq<Artifact>, k: nat, kept: set<string>)
    requires Separate(entries) && AllLeaving(w.files, entries) && k < |entries| && w.faults == OneError(k, kept)
    requires id in w.journal && w.journal[id] == DbCommitted
    ensures var r := FinishDelete(w, id, entries);
      && r == Done(w.(files := r.world.files, journal := w.journal[id := CleanupPending], faults := []), ())
      && AllLeaving(r.world.files, entries)
      && forall j :: 0 <= j < |entries| && j != k ==> Gone(r.world.files, entries[j])
  {
    DropAllSafe(w, entries, 0, true);
    DropAllSkips(w, entries, 0, true, k, kept);
  }

  /**
   A delete that cannot remove one entry from trash still succeeds: its rows and originals are gone and
   so is all other trash, and its row waits for the cleanup.
   */
  lemma DeleteWithLateError(w: World, id: string, op: DeleteOperation, k: nat, kept: set<string>)
    requires Startable(w, id, op) && op.RomSet() <= w.roms && k < |op.entries|
    requires w.faults == OneError(|op.entries| + 2 + k, kept)
    ensures var r := Delete(w, id, op);
      && r == Done(w.(files := r.world.files, journal := w.journal[id := CleanupPending],
                      roms := w.roms - op.RomSet(), committed := w.committed + {id}, faults := []), ())
      && AllLeaving(r.world.files, op.entries)
      && forall j :: 0 <= j < |op.entries| && j != k ==> Gone(r.world.files, op.entries[j])
  {
    OneErrorLater(|op.entries| + 2 + k, |op.entries| + 2, kept);
    var w1 := Committing(w, id, op, OneError(k, kept));
    FinishWithLateError(w1, id, op.entries, k, kept);
    assert w.journal[id := DbCommitted][id := CleanupPending] == w.journal[id := CleanupPending];
  }
}
