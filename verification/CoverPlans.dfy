/**
 How a cover replacement is planned under the asset-root lock: every new file gets a backup exactly if
 something is in its place, and every former cover that is still there becomes an obsolete one.
 */
module CoverPlans {
  import opened Basics
  import opened Numerals
  import opened Storage
  import opened Covers
  import opened CoverSafety
  import opened CoverRuns

  datatype Download = Download(path: string, bytes: Bytes)

  function TrashOf(id: string): string {
    ".trash/" + id + "/"
  }

  function BackupName(id: string, i: nat): string {
    TrashOf(id) + "cover-" + Digits(i)
  }

  function ObsoleteName(id: string, i: nat): string {
    TrashOf(id) + "obsolete-cover-" + Digits(i)
  }

  function PlanEntries(w: World, root: string, id: string, downloads: seq<Download>, i: nat): Run<seq<Slot>>
    requires i <= |downloads|
    decreases |downloads| - i
  {
    if i == |downloads| then Done(w, [])
    else
      var d := downloads[i];
      var (w1, present) :- Exists(w, Location(root, d.path));
      var (w2, rest) :- PlanEntries(w1, root, id, downloads, i + 1);
      Done(w2, [Replacement(d.path, if present then Some(BackupName(id, i)) else None, d.bytes)] + rest)
  }

  /** `n` obsolete covers have been found before. */
  function PlanObsolete(w: World, root: string, id: string, previous: seq<string>, kept: set<string>, i: nat, n: nat)
    : Run<seq<Slot>>
    requires i <= |previous|
    decreases |previous| - i
  {
    if i == |previous| then Done(w, [])
    else if previous[i] in kept then PlanObsolete(w, root, id, previous, kept, i + 1, n)
    else
      var (w1, present) :- Exists(w, Location(root, previous[i]));
      if !present then PlanObsolete(w1, root, id, previous, kept, i + 1, n)
      else
        var (w2, rest) :- PlanObsolete(w1, root, id, previous, kept, i + 1, n + 1);
        Done(w2, [Obsolete(previous[i], Some(ObsoleteName(id, n)))] + rest)
  }

  function Paths(downloads: seq<Download>): set<string> {
    set d | d in downloads :: d.path
  }

  function Plan(w: World, root: string, id: string, rom: int, downloads: seq<Download>, previous: seq<string>)
    : Run<CoverOperation>
  {
    var (w1, entries) :- PlanEntries(w, root, id, downloads, 0);
    var (w2, obsolete) :- PlanObsolete(w1, root, id, previous, Paths(downloads), 0, 0);
    Done(w2, CoverOperation(rom, entries, obsolete))
  }

  // ---------- the loops ----------

  function Prepend<T>(done: seq<T>, r: Run<seq<T>>): Run<seq<T>> {
    match r
    case Done(w, rest) => Done(w, done + rest)
    case _ => r
  }

  lemma PrependOne<T>(done: seq<T>, one: T, r: Run<seq<T>>)
    ensures Prepend(done + [one], r) == Prepend(done, Prepend([one], r))
  {
    if r.Done? {
      assert done + [one] + r.value == done + ([one] + r.value);
    }
  }

  lemma PrependNone<T>(r: Run<seq<T>>)
    ensures Prepend([], r) == r
  {
    if r.Done? {
      assert [] + r.value == r.value;
    }
  }

  method PlanReplacements(host: Host, root: string, id: string, downloads: seq<Download>)
    returns (r: Outcome<seq<Slot>>)
    modifies host
    ensures r.In(host.Now()) == PlanEntries(old(host.Now()), root, id, downloads, 0)
  {
    var slots: seq<Slot> := [];
    var i := 0;
    PrependNone(PlanEntries(host.Now(), root, id, downloads, 0));
    while i < |downloads|
      invariant 0 <= i <= |downloads|
      invariant Prepend(slots, PlanEntries(host.Now(), root, id, downloads, i))
             == PlanEntries(old(host.Now()), root, id, downloads, 0)
    {
      ghost var before := host.Now();
      var present :- host.FileExists(Location(root, downloads[i].path));
      var slot :=
        Replacement(downloads[i].path, if present then Some(BackupName(id, i)) else None, downloads[i].bytes);
      PrependOne(slots, slot, PlanEntries(host.Now(), root, id, downloads, i + 1));
      assert PlanEntries(before, root, id, downloads, i)
          == Prepend([slot], PlanEntries(host.Now(), root, id, downloads, i + 1));
      slots := slots + [slot];
      i := i + 1;
    }
    assert slots + [] == slots;
    return Success(slots);
  }

  method PlanFormerCovers(host: Host, root: string, id: string, previous: seq<string>, kept: set<string>)
    returns (r: Outcome<seq<Slot>>)
    modifies host
    ensures r.In(host.Now()) == PlanObsolete(old(host.Now()), root, id, previous, kept, 0, 0)
  {
    var slots: seq<Slot> := [];
    var i := 0;
    PrependNone(PlanObsolete(host.Now(), root, id, previous, kept, 0, 0));
    while i < |previous|
      invariant 0 <= i <= |previous|
      invariant Prepend(slots, PlanObsolete(host.Now(), root, id, previous, kept, i, |slots|))
             == PlanObsolete(old(host.Now()), root, id, previous, kept, 0, 0)
    {
      if previous[i] !in kept {
        ghost var before := host.Now();
        var present :- host.FileExists(Location(root, previous[i]));
        if present {
          var slot := Obsolete(previous[i], Some(ObsoleteName(id, |slots|)));
          PrependOne(slots, slot, PlanObsolete(host.Now(), root, id, previous, kept, i + 1, |slots| + 1));
          assert PlanObsolete(before, root, id, previous, kept, i, |slots|)
              == Prepend([slot], PlanObsolete(host.Now(), root, id, previous, kept, i + 1, |slots| + 1));
          slots := slots + [slot];
        }
      }
      i := i + 1;
    }
    assert slots + [] == slots;
    return Success(slots);
  }

  method PlanCover(host: Host, root: string, id: string, rom: int, downloads: seq<Download>, previous: seq<string>)
    returns (r: Outcome<CoverOperation>)
    modifies host
    ensures r.In(host.Now()) == Plan(old(host.Now()), root, id, rom, downloads, previous)
  {
    var entries :- PlanReplacements(host, root, id, downloads);
    var obsolete :- PlanFormerCovers(host, root, id, previous, Paths(downloads));
    return Success(CoverOperation(rom, entries, obsolete));
  }

  // ---------- what a plan is good for ----------

  /** A fresh operation id, different clean paths outside its trash, and regular files at them. */
  ghost predicate Sensible(f: Files, root: string, id: string, downloads: seq<Download>, previous: seq<string>) {
    (forall i, j :: 0 <= i < j < |downloads| ==> downloads[i].path != downloads[j].path) &&
    (forall i, j :: 0 <= i < j < |previous| ==> previous[i] != previous[j]) &&
    (forall path :: path in Paths(downloads) || path in previous ==>
      !(TrashOf(id) <= path) && (Location(root, path) in f ==> f[Location(root, path)].File?)) &&
    forall at :: at in f && at.root == root ==> !(TrashOf(id) <= at.relative)
  }

  /** The slots planned for the downloads from position `i` on. */
  ghost predicate EntrySlots(f: Files, root: string, id: string, downloads: seq<Download>, i: nat, slots: seq<Slot>)
    requires i <= |downloads|
  {
    |slots| == |downloads| - i &&
    forall k :: 0 <= k < |slots| ==> slots[k] == EntrySlot(f, root, id, downloads[i + k], i + k)
  }

  ghost function EntrySlot(f: Files, root: string, id: string, d: Download, k: nat): Slot {
    Replacement(d.path, if Location(root, d.path) in f then Some(BackupName(id, k)) else None, d.bytes)
  }

  lemma EntryOneMore(f: Files, root: string, id: string, downloads: seq<Download>, i: nat, rest: seq<Slot>)
    requires i < |downloads| && EntrySlots(f, root, id, downloads, i + 1, rest)
    ensures EntrySlots(f, root, id, downloads, i, [EntrySlot(f, root, id, downloads[i], i)] + rest)
  {
    var slots := [EntrySlot(f, root, id, downloads[i], i)] + rest;
    forall k | 0 <= k < |slots| ensures slots[k] == EntrySlot(f, root, id, downloads[i + k], i + k) {
      if k > 0 {
        assert slots[k] == rest[k - 1];
      }
    }
  }

  lemma {:induction false} EntriesMean(w: World, root: string, id: string, downloads: seq<Download>, i: nat)
    requires i <= |downloads|
    ensures var r := PlanEntries(w, root, id, downloads, i);
      && Sound(w, r) && r.world.files == w.files
      && (r.Done? ==> EntrySlots(w.files, root, id, downloads, i, r.value))
    decreases |downloads| - i
  {
    if i < |downloads| {
      ExistsSafe(w, Location(root, downloads[i].path));
      var r := Exists(w, Location(root, downloads[i].path));
      if r.Done? {
        EntriesMean(r.world, root, id, downloads, i + 1);
        var rest := PlanEntries(r.world, root, id, downloads, i + 1);
        if rest.Done? {
          EntryOneMore(w.files, root, id, downloads, i, rest.value);
        }
      }
    }
  }

  /** An obsolete slot of a former cover from position `i` on that is there and is not written anew. */
  ghost predicate Former(f: Files, root: string, id: string, previous: seq<string>, kept: set<string>, i: nat, n: nat,
                         s: Slot)
    requires i <= |previous|
  {
    s == Obsolete(s.path, Some(ObsoleteName(id, n))) && s.path in previous[i..] && s.path !in kept &&
    Location(root, s.path) in f
  }

  ghost predicate FormerSlots(f: Files, root: string, id: string, previous: seq<string>, kept: set<string>, i: nat,
                              n: nat, slots: seq<Slot>)
    requires i <= |previous|
  {
    (forall k :: 0 <= k < |slots| ==> Former(f, root, id, previous, kept, i, n + k, slots[k])) &&
    (forall k, l :: 0 <= k < l < |slots| ==> slots[k].path != slots[l].path) &&
    forall j :: i <= j < |previous| && Leftover(f, root, kept, previous[j]) ==> Listed(slots, previous[j])
  }

  /** A former cover that is still there and is not written anew. */
  predicate Leftover(f: Files, root: string, kept: set<string>, path: string) {
    path !in kept && Location(root, path) in f
  }

  ghost predicate Listed(slots: seq<Slot>, path: string) {
    exists k :: 0 <= k < |slots| && slots[k].path == path
  }

  lemma ListedLater(first: Slot, rest: seq<Slot>, path: string)
    ensures Listed([first] + rest, path) <==> first.path == path || Listed(rest, path)
  {
    var slots := [first] + rest;
    if first.path == path {
      assert slots[0].path == path;
    }
    if Listed(rest, path) {
      var k :| 0 <= k < |rest| && rest[k].path == path;
      assert slots[k + 1].path == path;
    }
    if Listed(slots, path) {
      var k :| 0 <= k < |slots| && slots[k].path == path;
      assert k > 0 ==> rest[k - 1].path == path;
    }
  }

  lemma FormerLater(f: Files, root: string, id: string, previous: seq<string>, kept: set<string>, i: nat, n: nat,
                    slots: seq<Slot>)
    requires i < |previous| && FormerSlots(f, root, id, previous, kept, i + 1, n, slots)
    requires !Leftover(f, root, kept, previous[i])
    ensures FormerSlots(f, root, id, previous, kept, i, n, slots)
  {
    forall k | 0 <= k < |slots| ensures slots[k].path in previous[i..] {
      assert Former(f, root, id, previous, kept, i + 1, n + k, slots[k]);
      assert previous[i..] == [previous[i]] + previous[i + 1..];
    }
  }

  lemma FormerOneMore(f: Files, root: string, id: string, previous: seq<string>, kept: set<string>, i: nat, n: nat,
                      rest: seq<Slot>)
    requires i < |previous| && FormerSlots(f, root, id, previous, kept, i + 1, n + 1, rest)
    requires forall a, b :: 0 <= a < b < |previous| ==> previous[a] != previous[b]
    requires previous[i] !in kept && Location(root, previous[i]) in f
    ensures FormerSlots(f, root, id, previous, kept, i, n, [Obsolete(previous[i], Some(ObsoleteName(id, n)))] + rest)
  {
    var slots := [Obsolete(previous[i], Some(ObsoleteName(id, n)))] + rest;
    assert previous[i..] == [previous[i]] + previous[i + 1..];
    forall k | 0 <= k < |rest|
      ensures Former(f, root, id, previous, kept, i, n + 1 + k, rest[k]) && rest[k].path != previous[i]
    {
      assert Former(f, root, id, previous, kept, i + 1, n + 1 + k, rest[k]);
      var j :| 0 <= j < |previous[i + 1..]| && previous[i + 1..][j] == rest[k].path;
      assert previous[i + 1 + j] == rest[k].path;
    }
    forall k | 0 <= k < |slots| ensures Former(f, root, id, previous, kept, i, n + k, slots[k]) {
      if k > 0 {
        assert slots[k] == rest[k - 1];
      }
    }
    forall j | i <= j < |previous| && Leftover(f, root, kept, previous[j]) ensures Listed(slots, previous[j]) {
      ListedLater(slots[0], rest, previous[j]);
      assert j != i ==> Listed(rest, previous[j]);
    }
  }

  lemma {:induction false} ObsoleteMean(w: World, root: string, id: string, previous: seq<string>, kept: set<string>,
                                        i: nat, n: nat)
    requires i <= |previous| && forall a, b :: 0 <= a < b < |previous| ==> previous[a] != previous[b]
    ensures var r := PlanObsolete(w, root, id, previous, kept, i, n);
      && Sound(w, r) && r.world.files == w.files
      && (r.Done? ==> FormerSlots(w.files, root, id, previous, kept, i, n, r.value))
    decreases |previous| - i
  {
    if i < |previous| {
      if previous[i] in kept {
        ObsoleteMean(w, root, id, previous, kept, i + 1, n);
        var r := PlanObsolete(w, root, id, previous, kept, i + 1, n);
        if r.Done? {
          FormerLater(w.files, root, id, previous, kept, i, n, r.value);
        }
      } else {
        ExistsSafe(w, Location(root, previous[i]));
        var r1 := Exists(w, Location(root, previous[i]));
        if r1.Done? {
          var n' := if r1.value then n + 1 else n;
          ObsoleteMean(r1.world, root, id, previous, kept, i + 1, n');
          var r := PlanObsolete(r1.world, root, id, previous, kept, i + 1, n');
          if r.Done? {
            if r1.value {
              FormerOneMore(w.files, root, id, previous, kept, i, n, r.value);
            } else {
              FormerLater(w.files, root, id, previous, kept, i, n, r.value);
            }
          }
        }
      }
    }
  }

  /** Backup names lie in the operation's trash and differ from each other. */
  lemma NamesDiffer(id: string, i: nat, j: nat)
    ensures TrashOf(id) <= BackupName(id, i) && TrashOf(id) <= ObsoleteName(id, i)
    ensures BackupName(id, i) != ObsoleteName(id, j)
    ensures BackupName(id, i) == BackupName(id, j) ==> i == j
    ensures ObsoleteName(id, i) == ObsoleteName(id, j) ==> i == j
  {
    var n := |TrashOf(id)|;
    assert BackupName(id, i)[n] == 'c' && ObsoleteName(id, j)[n] == 'o';
    assert BackupName(id, i)[n + 6..] == Digits(i) && BackupName(id, j)[n + 6..] == Digits(j);
    assert ObsoleteName(id, i)[n + 15..] == Digits(i) && ObsoleteName(id, j)[n + 15..] == Digits(j);
    if Digits(i) == Digits(j) {
      DigitsDiffer(i, j);
    }
  }

  /** What a finished plan looks like, slot by slot. */
  ghost predicate Planning(f: Files, root: string, id: string, downloads: seq<Download>, previous: seq<string>,
                           op: CoverOperation) {
    EntrySlots(f, root, id, downloads, 0, op.entries) &&
    FormerSlots(f, root, id, previous, Paths(downloads), 0, 0, op.obsolete)
  }

  /** The slot's path lies outside the operation's trash, its backup inside. */
  predicate InTrash(id: string, s: Slot) {
    !(TrashOf(id) <= s.path) && (s.backup.Some? ==> TrashOf(id) <= s.backup.value)
  }

  /** Every slot has a clean path and, if any, a backup of its own in the trash. */
  lemma SlotIs(f: Files, root: string, id: string, downloads: seq<Download>, previous: seq<string>,
               op: CoverOperation, i: nat)
    requires Sensible(f, root, id, downloads, previous) && Planning(f, root, id, downloads, previous, op)
    requires i < |op.Slots()|
    ensures var s := op.Slots()[i];
      && InTrash(id, s) && Planned(f, root, s)
      && (i < |op.obsolete| ==>
            s == op.obsolete[i] && s.path !in Paths(downloads) && s.Obsolete? &&
            s.backup == Some(ObsoleteName(id, i)))
      && (i >= |op.obsolete| ==>
            var k := i - |op.obsolete|;
            s == op.entries[k] && s.Replacement? && s.path == downloads[k].path && s.path in Paths(downloads) &&
            (s.backup.Some? ==> s.backup == Some(BackupName(id, k))))
  {
    var n := |op.obsolete|;
    if i < n {
      assert Former(f, root, id, previous, Paths(downloads), 0, 0 + i, op.obsolete[i]);
      NamesDiffer(id, i, i);
    } else {
      assert downloads[i - n] in downloads && downloads[i - n].path in Paths(downloads);
      NamesDiffer(id, i - n, i - n);
    }
  }

  /** Slots whose paths differ and whose backups, if any, differ do not meet. */
  lemma Apart(id: string, s: Slot, t: Slot)
    requires InTrash(id, s) && InTrash(id, t)
    requires s.path != t.path && (s.backup.Some? && t.backup.Some? ==> s.backup != t.backup)
    ensures Footprint(s) !! Footprint(t)
  {
    assert s.backup.Some? ==> s.backup.value != t.path;
    assert t.backup.Some? ==> t.backup.value != s.path;
  }

  lemma SlotsDiffer(f: Files, root: string, id: string, downloads: seq<Download>, previous: seq<string>,
                    op: CoverOperation, i: nat, j: nat)
    requires Sensible(f, root, id, downloads, previous) && Planning(f, root, id, downloads, previous, op)
    requires i < j < |op.Slots()|
    ensures Footprint(op.Slots()[i]) !! Footprint(op.Slots()[j])
  {
    SlotIs(f, root, id, downloads, previous, op, i);
    SlotIs(f, root, id, downloads, previous, op, j);
    PathsDiffer(f, root, id, downloads, previous, op, i, j);
    BackupsDiffer(id, op.Slots()[i], op.Slots()[j], |op.obsolete|, i, j);
    Apart(id, op.Slots()[i], op.Slots()[j]);
  }

  lemma PathsDiffer(f: Files, root: string, id: string, downloads: seq<Download>, previous: seq<string>,
                    op: CoverOperation, i: nat, j: nat)
    requires Sensible(f, root, id, downloads, previous) && Planning(f, root, id, downloads, previous, op)
    requires i < j < |op.Slots()|
    ensures op.Slots()[i].path != op.Slots()[j].path
  {
    var n := |op.obsolete|;
    SlotIs(f, root, id, downloads, previous, op, i);
    SlotIs(f, root, id, downloads, previous, op, j);
    if j < n {
      assert op.obsolete[i].path != op.obsolete[j].path;
    } else if i >= n {
      assert downloads[i - n].path != downloads[j - n].path;
    }
  }

  /** The slot at place `i` of a plan with `n` obsolete covers has the backup of its number, if any. */
  predicate Numbered(id: string, s: Slot, n: nat, i: nat) {
    s.backup.Some? ==> s.backup.value == if i < n then ObsoleteName(id, i) else BackupName(id, i - n)
  }

  lemma BackupsDiffer(id: string, s: Slot, t: Slot, n: nat, i: nat, j: nat)
    requires i < j && Numbered(id, s, n, i) && Numbered(id, t, n, j)
    ensures s.backup.Some? && t.backup.Some? ==> s.backup != t.backup
  {
    if j < n {
      NamesDiffer(id, i, j);
    } else if i < n {
      NamesDiffer(id, j - n, i);
    } else {
      NamesDiffer(id, i - n, j - n);
    }
  }

  /** A plan for sensible inputs is one that a replacement can be undone from. */
  lemma PlansAreSound(f: Files, root: string, id: string, downloads: seq<Download>, previous: seq<string>,
                      op: CoverOperation)
    requires Sensible(f, root, id, downloads, previous) && Planning(f, root, id, downloads, previous, op)
    ensures WellTyped(op) && NoRepeats(op.Slots()) && Separate(op.Slots())
    ensures forall s :: s in op.Slots() ==> Planned(f, root, s)
  {
    var slots := op.Slots();
    forall i | 0 <= i < |slots| ensures Planned(f, root, slots[i]) && SlotTyped(op, i) && OwnBackup(slots[i]) {
      SlotIs(f, root, id, downloads, previous, op, i);
      NamesDiffer(id, i, i);
      if i >= |op.obsolete| {
        NamesDiffer(id, i - |op.obsolete|, i);
      }
    }
    forall s | s in op.entries ensures s.Replacement? {
      var k :| 0 <= k < |op.entries| && op.entries[k] == s;
      assert SlotTyped(op, |op.obsolete| + k);
    }
    forall s | s in op.obsolete ensures s.Obsolete? && s.backup.Some? {
      var k :| 0 <= k < |op.obsolete| && op.obsolete[k] == s;
      assert SlotTyped(op, k);
    }
    forall i, j | 0 <= i < j < |slots| ensures Footprint(slots[i]) !! Footprint(slots[j]) && slots[i] != slots[j] {
      SlotsDiffer(f, root, id, downloads, previous, op, i, j);
      assert slots[i].path in Footprint(slots[i]);
    }
    SlotsAreSeparate(slots);
  }

  ghost predicate SlotTyped(op: CoverOperation, i: nat)
    requires i < |op.Slots()|
  {
    if i < |op.obsolete| then op.Slots()[i].Obsolete? && op.Slots()[i].backup.Some? else op.Slots()[i].Replacement?
  }

  ghost predicate OwnBackup(s: Slot) {
    s.backup.Some? ==> s.backup.value != s.path
  }

  lemma SlotsAreSeparate(slots: seq<Slot>)
    requires forall i :: 0 <= i < |slots| ==> OwnBackup(slots[i])
    requires forall i, j :: 0 <= i < j < |slots| ==> Footprint(slots[i]) !! Footprint(slots[j])
    ensures Separate(slots)
  {
    forall s, t | s in slots && t in slots && s != t ensures Footprint(s) !! Footprint(t) {
      var i :| 0 <= i < |slots| && slots[i] == s;
      var j :| 0 <= j < |slots| && slots[j] == t;
    }
  }

  /**
   Planning only looks, and whatever faults it meets, a plan that ends is one from which the replacement
   can be staged, undone and finished: what the runs of cover operations ask of it.
   */
  lemma PlanIsSound(w: World, root: string, id: string, rom: int, downloads: seq<Download>, previous: seq<string>)
    requires Sensible(w.files, root, id, downloads, previous)
    ensures var r := Plan(w, root, id, rom, downloads, previous);
      && Sound(w, r) && r.world.files == w.files
      && (r.Done? ==>
            var op := r.value;
            op.rom == rom && WellTyped(op) && NoRepeats(op.Slots()) && Separate(op.Slots()) &&
            forall s :: s in op.Slots() ==> Planned(w.files, root, s))
  {
    EntriesMean(w, root, id, downloads, 0);
    var r1 := PlanEntries(w, root, id, downloads, 0);
    if r1.Done? {
      ObsoleteMean(r1.world, root, id, previous, Paths(downloads), 0, 0);
      var r := Plan(w, root, id, rom, downloads, previous);
      if r.Done? {
        PlansAreSound(w.files, root, id, downloads, previous, r.value);
      }
    }
  }

  /**
   A finished plan is complete: it writes every download to its path, in order, and moves away exactly the
   former covers that are still there and are not written anew, each once.
   */
  lemma PlanIsComplete(w: World, root: string, id: string, rom: int, downloads: seq<Download>, previous: seq<string>)
    requires Sensible(w.files, root, id, downloads, previous) && Plan(w, root, id, rom, downloads, previous).Done?
    ensures var op := Plan(w, root, id, rom, downloads, previous).value;
      && |op.entries| == |downloads|
      && (forall k :: 0 <= k < |downloads| ==>
            op.entries[k].path == downloads[k].path && op.entries[k].Replacement? &&
            op.entries[k].bytes == downloads[k].bytes &&
            (op.entries[k].backup.Some? <==> Location(root, downloads[k].path) in w.files))
      && (forall path :: Listed(op.obsolete, path) <==>
            path in previous && path !in Paths(downloads) && Location(root, path) in w.files)
      && (forall k, l :: 0 <= k < l < |op.obsolete| ==> op.obsolete[k].path != op.obsolete[l].path)
  {
    var op := Plan(w, root, id, rom, downloads, previous).value;
    EntriesMean(w, root, id, downloads, 0);
    var r1 := PlanEntries(w, root, id, downloads, 0);
    ObsoleteMean(r1.world, root, id, previous, Paths(downloads), 0, 0);
    forall path
      ensures Listed(op.obsolete, path) <==> path in previous && Leftover(w.files, root, Paths(downloads), path)
    {
      if Listed(op.obsolete, path) {
        var k :| 0 <= k < |op.obsolete| && op.obsolete[k].path == path;
        assert Former(w.files, root, id, previous, Paths(downloads), 0, k, op.obsolete[k]);
        assert previous[0..] == previous;
      }
      if path in previous && Leftover(w.files, root, Paths(downloads), path) {
        var j :| 0 <= j < |previous| && previous[j] == path;
      }
    }
  }

  /** So a replacement that was planned under the lock, with a fresh id, may start in any run of operations. */
  lemma PlannedMayStart(sys: System, root: string, id: string, rom: int, downloads: seq<Download>,
                        previous: seq<string>, faults: seq<Fault>, later: seq<Fault>)
    requires Sensible(sys.world.files, root, id, downloads, previous)
    requires id !in sys.records && id !in sys.world.journal && id !in sys.world.committed
    requires forall other :: !sys.Unfinished(other)
    ensures var r := Plan(sys.world.(faults := faults), root, id, rom, downloads, previous);
      r.Done? ==> r.world == sys.world.(faults := r.world.faults) && Enabled(sys, root, Replacing(id, r.value, later))
  {
    PlanIsSound(sys.world.(faults := faults), root, id, rom, downloads, previous);
  }
}
