/**
 The two-stage page query of the catalogue: count, select one page of ids, join the page again in
 the same order, and attach each ROM's files, whose preferred first one gives its file name.

 Texts and numbers are compared through ranks in a fixed total preorder (collation, JSON numbers).
 */
module CatalogPages {
  import opened Basics
  import opened Ordering

  datatype Role = Content | LaunchManifest | Descriptor | DiscImage | Track | ArchiveVolume | MetadataSidecar | Other

  datatype File = File(
    id: int, rom: int, root: int, name: string, nameRank: int, role: Role, launchable: bool, primary: bool,
    sortIndex: int, disc: Option<int>, track: Option<int>)

  datatype Rom = Rom(
    id: int, platform: int, nameRank: int, created: int, year: Option<int>, rating: Option<int>, size: Option<int>)

  datatype Sort = Name | Recent | Year | Rating | Size | Unknown

  datatype Params = Params(sort: Sort, descending: bool, limit: int, offset: int)

  datatype Database = Database(roms: seq<Rom>, files: seq<File>, roots: set<int>)

  datatype Item = Item(rom: Rom, fileName: Option<string>, files: seq<File>)

  datatype Page = Page(items: seq<Item>, total: nat)

  // ---------- the comparators ----------

  function Class(f: File): int {
    if f.launchable && f.role == Content && f.primary then 0
    else if f.launchable && f.role == LaunchManifest then 1
    else if f.launchable && f.role in {Descriptor, DiscImage} then 2
    else if f.launchable then 3
    else if f.role in {Track, ArchiveVolume, MetadataSidecar} then 9
    else 8
  }

  function Nulls(v: Option<int>): int {
    if v.None? then 1 else 0
  }

  function OrZero(v: Option<int>): int {
    if v.None? then 0 else v.value
  }

  function FileKey(f: File): seq<int> {
    [Class(f), if f.primary then 0 else 1, f.sortIndex, Nulls(f.disc), OrZero(f.disc),
     Nulls(f.track), OrZero(f.track), f.nameRank, f.id]
  }

  function Directed(descending: bool, v: int): int {
    if descending then -v else v
  }

  function SortValue(sort: Sort, r: Rom): Option<int> {
    match sort
    case Recent => Some(r.created)
    case Year => r.year
    case Rating => r.rating
    case Size => r.size
    case _ => Some(r.nameRank)
  }

  function RomKey(p: Params, r: Rom): seq<int> {
    var v := SortValue(p.sort, r);
    if p.sort in {Name, Recent} then [Directed(p.descending, v.value), Directed(p.descending, r.id)]
    else [Nulls(v), Directed(p.descending, OrZero(v)), r.nameRank, Directed(p.descending, r.id)]
  }

  // ---------- the order in plain terms ----------

  predicate Beats(descending: bool, x: int, y: int) {
    if descending then x > y else x < y
  }

  /** By value in the asked direction, and then by id in that direction. */
  predicate PrecedesByValue(descending: bool, x: int, y: int, a: Rom, b: Rom) {
    Beats(descending, x, y) || (x == y && Beats(descending, a.id, b.id))
  }

  /**
   Known values before unknown ones, whatever the direction; known ones by value in the asked direction;
   then by name, always ascending, and then by id in the asked direction.
   */
  predicate PrecedesByNumber(descending: bool, x: Option<int>, y: Option<int>, a: Rom, b: Rom) {
    (x.Some? && y.None?) ||
    (x.Some? && y.Some? && Beats(descending, x.value, y.value)) ||
    (x == y && (a.nameRank < b.nameRank || (a.nameRank == b.nameRank && Beats(descending, a.id, b.id))))
  }

  /** A sort the server does not know is by name. */
  predicate Precedes(p: Params, a: Rom, b: Rom) {
    match p.sort
    case Name => PrecedesByValue(p.descending, a.nameRank, b.nameRank, a, b)
    case Recent => PrecedesByValue(p.descending, a.created, b.created, a, b)
    case Year => PrecedesByNumber(p.descending, a.year, b.year, a, b)
    case Rating => PrecedesByNumber(p.descending, a.rating, b.rating, a, b)
    case Size => PrecedesByNumber(p.descending, a.size, b.size, a, b)
    case Unknown => PrecedesByValue(p.descending, a.nameRank, b.nameRank, a, b)
  }

  lemma FirstDecides(x: int, a: seq<int>, y: int, b: seq<int>)
    ensures KeyLess([x] + a, [y] + b) <==> x < y || (x == y && KeyLess(a, b))
  {
    assert ([x] + a)[1..] == a && ([y] + b)[1..] == b;
  }

  lemma TwoDecide(x: int, x': int, y: int, y': int)
    ensures KeyLess([x, x'], [y, y']) <==> x < y || (x == y && x' < y')
  {
    assert [x, x'] == [x] + [x'] && [y, y'] == [y] + [y'] && [x'] == [x'] + [] && [y'] == [y'] + [];
    FirstDecides(x, [x'], y, [y']);
    FirstDecides(x', [], y', []);
  }

  lemma FourDecide(a: seq<int>, b: seq<int>)
    requires |a| == |b| == 4
    ensures KeyLess(a, b) <==>
            a[0] < b[0] || (a[0] == b[0] && (a[1] < b[1] || (a[1] == b[1] && KeyLess(a[2..], b[2..]))))
    ensures KeyLess(a[2..], b[2..]) <==> a[2] < b[2] || (a[2] == b[2] && a[3] < b[3])
  {
    assert a == [a[0]] + ([a[1]] + a[2..]) && b == [b[0]] + ([b[1]] + b[2..]);
    FirstDecides(a[0], [a[1]] + a[2..], b[0], [b[1]] + b[2..]);
    FirstDecides(a[1], a[2..], b[1], b[2..]);
    assert a[2..] == [a[2], a[3]] && b[2..] == [b[2], b[3]];
    TwoDecide(a[2], a[3], b[2], b[3]);
  }

  lemma KeyMeansPrecedes(p: Params, a: Rom, b: Rom)
    ensures KeyLess(RomKey(p, a), RomKey(p, b)) <==> Precedes(p, a, b)
  {
    var x, y := RomKey(p, a), RomKey(p, b);
    if p.sort in {Name, Recent} {
      TwoDecide(x[0], x[1], y[0], y[1]);
    } else {
      FourDecide(x, y);
    }
  }

  /** What a file is for: the first of these that applies. */
  predicate IsMainContent(f: File) {
    f.launchable && f.role == Content && f.primary
  }

  predicate IsManifest(f: File) {
    f.launchable && f.role == LaunchManifest
  }

  predicate IsDisc(f: File) {
    f.launchable && (f.role == Descriptor || f.role == DiscImage)
  }

  predicate IsPart(f: File) {
    !f.launchable && (f.role == Track || f.role == ArchiveVolume || f.role == MetadataSidecar)
  }

  /** Main content before manifests before discs before other launchable files before the rest, parts last. */
  predicate Preferred(a: File, b: File) {
    (IsMainContent(a) && !IsMainContent(b)) ||
    (IsManifest(a) && !IsMainContent(b) && !IsManifest(b)) ||
    (IsDisc(a) && !IsMainContent(b) && !IsManifest(b) && !IsDisc(b)) ||
    (a.launchable && !b.launchable) ||
    (!IsPart(a) && IsPart(b))
  }

  /** A smaller number first, and a known one before an unknown one. */
  predicate Smaller(x: Option<int>, y: Option<int>) {
    (x.Some? && y.None?) || (x.Some? && y.Some? && x.value < y.value)
  }

  /**
   The preferred order of a ROM's files: by what they are for, primary ones first, and then by their
   index, disc, track, name and id.
   */
  predicate FilePrecedes(a: File, b: File) {
    Preferred(a, b) ||
    (!Preferred(b, a) &&
     ((a.primary && !b.primary) ||
      (a.primary == b.primary &&
       (a.sortIndex < b.sortIndex || (a.sortIndex == b.sortIndex && FilePrecedesByPlace(a, b))))))
  }

  predicate FilePrecedesByPlace(a: File, b: File) {
    Smaller(a.disc, b.disc) ||
    (a.disc == b.disc &&
     (Smaller(a.track, b.track) ||
      (a.track == b.track && (a.nameRank < b.nameRank || (a.nameRank == b.nameRank && a.id < b.id)))))
  }

  lemma PlaceDecides(a: File, b: File)
    ensures KeyLess([Nulls(a.disc), OrZero(a.disc), Nulls(a.track), OrZero(a.track), a.nameRank, a.id],
                    [Nulls(b.disc), OrZero(b.disc), Nulls(b.track), OrZero(b.track), b.nameRank, b.id])
       <==> FilePrecedesByPlace(a, b)
  {
    var x := [Nulls(a.track), OrZero(a.track), a.nameRank, a.id];
    var y := [Nulls(b.track), OrZero(b.track), b.nameRank, b.id];
    FourDecide(x, y);
    FirstDecides(OrZero(a.disc), x, OrZero(b.disc), y);
    FirstDecides(Nulls(a.disc), [OrZero(a.disc)] + x, Nulls(b.disc), [OrZero(b.disc)] + y);
    assert [Nulls(a.disc), OrZero(a.disc), Nulls(a.track), OrZero(a.track), a.nameRank, a.id] ==
           [Nulls(a.disc)] + ([OrZero(a.disc)] + x);
    assert [Nulls(b.disc), OrZero(b.disc), Nulls(b.track), OrZero(b.track), b.nameRank, b.id] ==
           [Nulls(b.disc)] + ([OrZero(b.disc)] + y);
  }

  lemma ClassMeansPreferred(a: File, b: File)
    ensures Class(a) < Class(b) <==> Preferred(a, b)
  {
  }

  lemma FileKeyMeansPrecedes(a: File, b: File)
    ensures KeyLess(FileKey(a), FileKey(b)) <==> FilePrecedes(a, b)
  {
    ClassMeansPreferred(a, b);
    ClassMeansPreferred(b, a);
    PlaceDecides(a, b);
    var x, y := FileKey(a), FileKey(b);
    assert x == [x[0]] + ([x[1]] + ([x[2]] + x[3..])) && y == [y[0]] + ([y[1]] + ([y[2]] + y[3..]));
    FirstDecides(x[0], [x[1]] + ([x[2]] + x[3..]), y[0], [y[1]] + ([y[2]] + y[3..]));
    FirstDecides(x[1], [x[2]] + x[3..], y[1], [y[2]] + y[3..]);
    FirstDecides(x[2], x[3..], y[2], y[3..]);
    assert x[3..] == [Nulls(a.disc), OrZero(a.disc), Nulls(a.track), OrZero(a.track), a.nameRank, a.id];
    assert y[3..] == [Nulls(b.disc), OrZero(b.disc), Nulls(b.track), OrZero(b.track), b.nameRank, b.id];
  }

  // ---------- ORDER BY ----------

  function Insert<T>(row: T, rows: seq<T>, key: T -> seq<int>): seq<T>
    decreases |rows|
  {
    if rows == [] || KeyLess(key(row), key(rows[0])) then [row] + rows
    else [rows[0]] + Insert(row, rows[1..], key)
  }

  function OrderBy<T>(rows: seq<T>, key: T -> seq<int>): seq<T>
    decreases |rows|
  {
    if rows == [] then [] else Insert(rows[0], OrderBy(rows[1..], key), key)
  }

  /** Rows of one table have different keys: every key ends in the primary key. */
  ghost predicate DistinctKeys<T(!new)>(rows: seq<T>, key: T -> seq<int>) {
    forall i, j :: 0 <= i < j < |rows| ==> key(rows[i]) != key(rows[j])
  }

  lemma {:induction false} InsertOrders<T(!new)>(row: T, rows: seq<T>, key: T -> seq<int>)
    requires Ordered(rows, key) && forall x :: x in rows ==> key(x) != key(row)
    ensures Ordered(Insert(row, rows, key), key)
    ensures forall x :: x in Insert(row, rows, key) <==> x == row || x in rows
    ensures |Insert(row, rows, key)| == |rows| + 1
    decreases |rows|
  {
    if rows != [] {
      var first, rest := rows[0], rows[1..];
      assert rows == [first] + rest;
      assert first in rows;
      if KeyLess(key(row), key(first)) {
        forall j | 0 < j < |rows| ensures KeyLess(key(row), key(rows[j])) {
          KeyTransitive(key(row), key(first), key(rows[j]));
        }
      } else {
        KeyTotal(key(row), key(first));
        InsertOrders(row, rest, key);
        var tail := Insert(row, rest, key);
        forall j | 0 <= j < |tail| ensures KeyLess(key(first), key(tail[j])) {
          assert tail[j] in tail;
          if tail[j] != row {
            var k :| 0 <= k < |rest| && rest[k] == tail[j];
            assert rows[k + 1] == rest[k];
          }
        }
      }
    }
  }

  lemma {:induction false} OrderByOrders<T(!new)>(rows: seq<T>, key: T -> seq<int>)
    requires DistinctKeys(rows, key)
    ensures Ordered(OrderBy(rows, key), key)
    ensures forall x :: x in OrderBy(rows, key) <==> x in rows
    ensures |OrderBy(rows, key)| == |rows|
    decreases |rows|
  {
    if rows != [] {
      OrderByOrders(rows[1..], key);
      assert rows == [rows[0]] + rows[1..];
      InsertOrders(rows[0], OrderBy(rows[1..], key), key);
    }
  }

  // ---------- WHERE, LIMIT and OFFSET ----------

  function Where<T>(rows: seq<T>, keep: T -> bool): seq<T>
    decreases |rows|
  {
    if rows == [] then []
    else if keep(rows[0]) then [rows[0]] + Where(rows[1..], keep)
    else Where(rows[1..], keep)
  }

  lemma {:induction false} WhereMembers<T(!new)>(rows: seq<T>, keep: T -> bool)
    ensures forall x :: x in Where(rows, keep) <==> x in rows && keep(x)
    decreases |rows|
  {
    if rows != [] {
      WhereMembers(rows[1..], keep);
      assert rows == [rows[0]] + rows[1..];
    }
  }

  lemma {:induction false} WhereKeepsDistinct<T(!new)>(rows: seq<T>, keep: T -> bool, key: T -> seq<int>)
    requires DistinctKeys(rows, key)
    ensures DistinctKeys(Where(rows, keep), key)
    decreases |rows|
  {
    if rows != [] {
      WhereKeepsDistinct(rows[1..], keep, key);
      WhereMembers(rows[1..], keep);
      var tail := Where(rows[1..], keep);
      forall j | 0 <= j < |tail| ensures key(tail[j]) != key(rows[0]) {
        assert tail[j] in rows[1..];
        var k :| 0 <= k < |rows[1..]| && rows[1..][k] == tail[j];
        assert rows[k + 1] == tail[j];
      }
    }
  }

  /** SQLite reads a negative limit as none and a negative offset as zero. */
  function Slice<T>(rows: seq<T>, limit: int, offset: int): seq<T> {
    var start := if offset < 0 then 0 else if offset > |rows| then |rows| else offset;
    var end := if limit < 0 || start + limit > |rows| then |rows| else start + limit;
    rows[start..end]
  }

  /** The rows from the offset on, as many as the limit; a negative offset is none, and so is a negative limit. */
  lemma SliceMeans<T>(rows: seq<T>, limit: int, offset: int)
    ensures var page := Slice(rows, limit, offset);
      var from := if offset > 0 then offset else 0;
      var left := if from < |rows| then |rows| - from else 0;
      && |page| == (if 0 <= limit < left then limit else left)
      && forall i :: 0 <= i < |page| ==> page[i] == rows[from + i]
  {
  }

  // ---------- the query ----------

  ghost predicate PrimaryKeys(db: Database) {
    (forall i, j :: 0 <= i < j < |db.roms| ==> db.roms[i].id != db.roms[j].id) &&
    (forall i, j :: 0 <= i < j < |db.files| ==> db.files[i].id != db.files[j].id)
  }

  /** The foreign key from files to library roots. */
  ghost predicate RootsExist(db: Database) {
    forall f :: f in db.files ==> f.root in db.roots
  }

  function FilesOf(db: Database, rom: int): seq<File> {
    OrderBy(Where(db.files, (f: File) => f.rom == rom), FileKey)
  }

  function FileName(db: Database, rom: int): Option<string> {
    var files := FilesOf(db, rom);
    if files == [] then None else Some(files[0].name)
  }

  /** The reference: filter, then sort, then slice. */
  function Catalogue(db: Database, matches: Rom -> bool, p: Params): seq<Rom> {
    OrderBy(Where(db.roms, matches), (r: Rom) => RomKey(p, r))
  }

  function Attach(db: Database, r: Rom): Item {
    Item(r, FileName(db, r.id), FilesOf(db, r.id))
  }

  function AttachAll(db: Database, roms: seq<Rom>): seq<Item> {
    seq(|roms|, i requires 0 <= i < |roms| => Attach(db, roms[i]))
  }

  function IdsOf(roms: seq<Rom>): set<int> {
    set r | r in roms :: r.id
  }

  function SelectedIds(db: Database, matches: Rom -> bool, p: Params): set<int> {
    IdsOf(Slice(Catalogue(db, matches, p), p.limit, p.offset))
  }

  /** The second stage: all ROMs with a selected id, in the same order. */
  function Rejoined(db: Database, matches: Rom -> bool, p: Params): seq<Rom> {
    var ids := SelectedIds(db, matches, p);
    OrderBy(Where(db.roms, (r: Rom) => r.id in ids), (r: Rom) => RomKey(p, r))
  }

  lemma IdsDecide(db: Database, p: Params)
    requires PrimaryKeys(db)
    ensures DistinctKeys(db.roms, (r: Rom) => RomKey(p, r))
    ensures DistinctKeys(db.files, FileKey)
  {
    forall i, j | 0 <= i < j < |db.roms| ensures RomKey(p, db.roms[i]) != RomKey(p, db.roms[j]) {
      var a, b := RomKey(p, db.roms[i]), RomKey(p, db.roms[j]);
      assert a[|a| - 1] != b[|b| - 1];
    }
    forall i, j | 0 <= i < j < |db.files| ensures FileKey(db.files[i]) != FileKey(db.files[j]) {
      assert FileKey(db.files[i])[8] != FileKey(db.files[j])[8];
    }
  }

  lemma SelectionIsOrdered(db: Database, keep: Rom -> bool, p: Params)
    requires PrimaryKeys(db)
    ensures Ordered(Catalogue(db, keep, p), (r: Rom) => RomKey(p, r))
    ensures forall r :: r in Catalogue(db, keep, p) <==> r in db.roms && keep(r)
    ensures |Catalogue(db, keep, p)| == |Where(db.roms, keep)|
  {
    var key := (r: Rom) => RomKey(p, r);
    IdsDecide(db, p);
    WhereMembers(db.roms, keep);
    WhereKeepsDistinct(db.roms, keep, key);
    OrderByOrders(Where(db.roms, keep), key);
  }

  lemma SliceIsOrdered<T(!new)>(rows: seq<T>, key: T -> seq<int>, limit: int, offset: int)
    requires Ordered(rows, key)
    ensures Ordered(Slice(rows, limit, offset), key)
    ensures forall x :: x in Slice(rows, limit, offset) ==> x in rows
  {
  }

  lemma SameId(roms: seq<Rom>, a: Rom, b: Rom)
    requires forall i, j :: 0 <= i < j < |roms| ==> roms[i].id != roms[j].id
    requires a in roms && b in roms && a.id == b.id
    ensures a == b
  {
  }

  /** The two stages together select exactly the slice of the filtered and sorted catalogue. */
  lemma RejoiningKeepsThePage(db: Database, matches: Rom -> bool, p: Params)
    requires PrimaryKeys(db)
    ensures Rejoined(db, matches, p) == Slice(Catalogue(db, matches, p), p.limit, p.offset)
  {
    var key := (r: Rom) => RomKey(p, r);
    var ids := SelectedIds(db, matches, p);
    var page, again := Slice(Catalogue(db, matches, p), p.limit, p.offset), Rejoined(db, matches, p);
    SelectionIsOrdered(db, matches, p);
    SliceIsOrdered(Catalogue(db, matches, p), key, p.limit, p.offset);
    SelectionIsOrdered(db, (r: Rom) => r.id in ids, p);
    forall r ensures r in page <==> r in again {
      if r in again {
        var other :| other in page && other.id == r.id;
        SameId(db.roms, r, other);
      }
    }
    OrderIsUnique(page, again, key);
  }

  // ---------- the query, as it runs ----------

  ghost predicate HasFile(rows: seq<File>, rom: int) {
    exists f :: f in rows && f.rom == rom
  }

  /** What the map of groups holds once these rows have been read. */
  ghost predicate Grouped(rows: seq<File>, rom: int, byRom: map<int, seq<File>>) {
    (rom in byRom <==> HasFile(rows, rom)) && (rom in byRom ==> byRom[rom] == Where(rows, (f: File) => f.rom == rom))
  }

  lemma GroupingOne(rows: seq<File>, f: File, rom: int, byRom: map<int, seq<File>>)
    requires Grouped(rows, f.rom, byRom) && Grouped(rows, rom, byRom)
    ensures Grouped(rows + [f], rom, byRom[f.rom := (if f.rom in byRom then byRom[f.rom] else []) + [f]])
  {
    var mine := (g: File) => g.rom == rom;
    WhereAppends(rows, f, mine);
    assert f in rows + [f];
    if rom == f.rom {
      assert HasFile(rows + [f], rom);
      if rom !in byRom {
        WhereMembers(rows, mine);
        HasMember(Where(rows, mine));
      }
    } else {
      assert HasFile(rows + [f], rom) <==> HasFile(rows, rom) by {
        if g :| g in rows + [f] && g.rom == rom {
          assert g in rows;
        }
        if g :| g in rows && g.rom == rom {
          assert g in rows + [f];
        }
      }
    }
  }

  /** One query for the files of all ROMs of the page, grouped in the order of its rows. */
  method FilesForRomIds(rows: seq<File>) returns (byRom: map<int, seq<File>>)
    ensures forall rom :: Grouped(rows, rom, byRom)
  {
    byRom := map[];
    for i := 0 to |rows|
      invariant forall rom :: Grouped(rows[..i], rom, byRom)
    {
      var f := rows[i];
      ghost var was, read := byRom, rows[..i] + [f];
      assert rows[..i + 1] == read;
      var group := if f.rom in byRom then byRom[f.rom] else [];
      byRom := byRom[f.rom := group + [f]];
      forall rom ensures Grouped(read, rom, byRom) {
        GroupingOne(rows[..i], f, rom, was);
      }
    }
    assert rows[..|rows|] == rows;
  }

  lemma {:induction false} WhereAppends<T(!new)>(rows: seq<T>, last: T, keep: T -> bool)
    ensures Where(rows + [last], keep) == Where(rows, keep) + if keep(last) then [last] else []
    decreases |rows|
  {
    if rows != [] {
      WhereAppends(rows[1..], last, keep);
      assert (rows + [last])[1..] == rows[1..] + [last];
    }
  }

  /** The rows of the file query: files of the page's ROMs whose root exists, by ROM and preference. */
  function FileRows(db: Database, ids: set<int>): seq<File> {
    OrderBy(Where(db.files, (f: File) => f.rom in ids && f.root in db.roots), (f: File) => [f.rom] + FileKey(f))
  }

  /** Within one ROM the order of the rows is the order of preference. */
  lemma OrderWithinRom(rows: seq<File>, later: File)
    requires rows != [] && Ordered(rows, (f: File) => [f.rom] + FileKey(f))
    requires later in rows[1..] && later.rom == rows[0].rom
    ensures KeyLess(FileKey(rows[0]), FileKey(later))
  {
    var k :| 0 <= k < |rows[1..]| && rows[1..][k] == later;
    assert rows[k + 1] == later;
    var a, b := [rows[0].rom] + FileKey(rows[0]), [later.rom] + FileKey(later);
    assert KeyLess(a, b) && a[1..] == FileKey(rows[0]) && b[1..] == FileKey(later);
  }

  lemma {:induction false} WhereKeepsOrder(rows: seq<File>, rom: int)
    requires Ordered(rows, (f: File) => [f.rom] + FileKey(f))
    ensures Ordered(Where(rows, (f: File) => f.rom == rom), FileKey)
    decreases |rows|
  {
    if rows != [] {
      var mine := (f: File) => f.rom == rom;
      WhereKeepsOrder(rows[1..], rom);
      var tail := Where(rows[1..], mine);
      if rows[0].rom == rom {
        WhereMembers(rows[1..], mine);
        forall j | 0 <= j < |tail| ensures KeyLess(FileKey(rows[0]), FileKey(tail[j])) {
          assert tail[j] in tail;
          OrderWithinRom(rows, tail[j]);
        }
        assert Where(rows, mine) == [rows[0]] + tail;
      } else {
        assert Where(rows, mine) == tail;
      }
    }
  }

  /** Grouping the rows of the one query gives each ROM its files in preferred order. */
  lemma GroupsAreFiles(db: Database, ids: set<int>, rom: int)
    requires PrimaryKeys(db) && RootsExist(db) && rom in ids
    ensures Where(FileRows(db, ids), (f: File) => f.rom == rom) == FilesOf(db, rom)
  {
    var wanted := (f: File) => f.rom in ids && f.root in db.roots;
    var mine := (f: File) => f.rom == rom;
    var byRom := (f: File) => [f.rom] + FileKey(f);
    IdsDecide(db, Params(Name, false, 0, 0));
    assert DistinctKeys(db.files, byRom) by {
      forall i, j | 0 <= i < j < |db.files| ensures byRom(db.files[i]) != byRom(db.files[j]) {
        assert byRom(db.files[i])[1..] == FileKey(db.files[i]) && byRom(db.files[j])[1..] == FileKey(db.files[j]);
      }
    }
    WhereKeepsDistinct(db.files, wanted, byRom);
    OrderByOrders(Where(db.files, wanted), byRom);
    WhereKeepsDistinct(db.files, mine, FileKey);
    OrderByOrders(Where(db.files, mine), FileKey);
    WhereKeepsOrder(FileRows(db, ids), rom);
    WhereMembers(db.files, wanted);
    WhereMembers(db.files, mine);
    WhereMembers(FileRows(db, ids), mine);
    OrderIsUnique(Where(FileRows(db, ids), mine), FilesOf(db, rom), FileKey);
  }

  lemma NoGroupMeansNoFiles(db: Database, ids: set<int>, rom: int)
    requires PrimaryKeys(db) && RootsExist(db) && rom in ids
    requires !HasFile(FileRows(db, ids), rom)
    ensures FilesOf(db, rom) == []
  {
    GroupsAreFiles(db, ids, rom);
    WhereMembers(FileRows(db, ids), (f: File) => f.rom == rom);
    HasMember(FilesOf(db, rom));
  }

  /** Every ROM of the page takes its group out of the map; a ROM without a group has no files. */
  method AttachFiles(db: Database, rows: seq<Rom>, groups: map<int, seq<File>>) returns (items: seq<Item>)
    requires forall i, j :: 0 <= i < j < |rows| ==> rows[i].id != rows[j].id
    requires forall r :: r in rows ==> FilesOf(db, r.id) == if r.id in groups then groups[r.id] else []
    ensures items == AttachAll(db, rows)
  {
    items := [];
    var byRom := groups;
    for i := 0 to |rows|
      invariant items == AttachAll(db, rows[..i])
      invariant forall j :: i <= j < |rows| ==> (rows[j].id in byRom <==> rows[j].id in groups)
      invariant forall rom :: rom in byRom ==> rom in groups && byRom[rom] == groups[rom]
    {
      var rom := rows[i];
      assert rom in rows;
      var files := [];
      if rom.id in byRom {
        files := byRom[rom.id];
        byRom := byRom - {rom.id};
      }
      items := items + [Item(rom, FileName(db, rom.id), files)];
      assert rows[..i + 1] == rows[..i] + [rom];
    }
    assert rows[..|rows|] == rows;
  }

  /** The complete files of one ROM in the preferred order. */
  ghost predicate FilesInOrder(db: Database, rom: int, files: seq<File>) {
    (forall f :: f in files <==> f in db.files && f.rom == rom) &&
    (forall i, j :: 0 <= i < j < |files| ==> FilePrecedes(files[i], files[j]))
  }

  lemma FilesAreInOrder(db: Database, rom: int)
    requires PrimaryKeys(db)
    ensures FilesInOrder(db, rom, FilesOf(db, rom))
  {
    var mine := (f: File) => f.rom == rom;
    IdsDecide(db, Params(Name, false, 0, 0));
    WhereKeepsDistinct(db.files, mine, FileKey);
    OrderByOrders(Where(db.files, mine), FileKey);
    WhereMembers(db.files, mine);
    var files := FilesOf(db, rom);
    forall i, j | 0 <= i < j < |files| ensures FilePrecedes(files[i], files[j]) {
      FileKeyMeansPrecedes(files[i], files[j]);
    }
  }

  /** The ROMs of a page stand in the asked order. */
  ghost predicate RomsInOrder(p: Params, roms: seq<Rom>) {
    forall i, j :: 0 <= i < j < |roms| ==> Precedes(p, roms[i], roms[j])
  }

  lemma PagesAreInOrder(db: Database, matches: Rom -> bool, p: Params)
    requires PrimaryKeys(db)
    ensures RomsInOrder(p, Catalogue(db, matches, p))
    ensures RomsInOrder(p, Slice(Catalogue(db, matches, p), p.limit, p.offset))
  {
    SelectionIsOrdered(db, matches, p);
    var rows := Catalogue(db, matches, p);
    forall i, j | 0 <= i < j < |rows| ensures Precedes(p, rows[i], rows[j]) {
      KeyMeansPrecedes(p, rows[i], rows[j]);
    }
  }

  lemma CountOne(first: Rom, rest: seq<Rom>, keep: Rom -> bool)
    requires first !in rest
    ensures |set r | r in [first] + rest && keep(r)| ==
            |set r | r in rest && keep(r)| + if keep(first) then 1 else 0
  {
    var all, others := set r | r in [first] + rest && keep(r), set r | r in rest && keep(r);
    if keep(first) {
      assert all == others + {first};
    } else {
      assert all == others;
    }
  }

  lemma {:induction false} WhereCounts(rows: seq<Rom>, keep: Rom -> bool)
    requires forall i, j :: 0 <= i < j < |rows| ==> rows[i].id != rows[j].id
    ensures |Where(rows, keep)| == |set r | r in rows && keep(r)|
    decreases |rows|
  {
    if rows != [] {
      var first, rest := rows[0], rows[1..];
      WhereCounts(rest, keep);
      forall k | 0 <= k < |rest| ensures rest[k] != first {
        assert rest[k] == rows[k + 1];
      }
      CountOne(first, rest, keep);
      assert rows == [first] + rest;
    }
  }

  /** The whole request: the page of the catalogue, each ROM with all its files, and the full count. */
  method List(db: Database, matches: Rom -> bool, p: Params) returns (page: Page)
    requires PrimaryKeys(db) && RootsExist(db)
    ensures page.items == AttachAll(db, Slice(Catalogue(db, matches, p), p.limit, p.offset))
    ensures page.items == AttachAll(db, Rejoined(db, matches, p))
    ensures forall i, j :: 0 <= i < j < |page.items| ==> Precedes(p, page.items[i].rom, page.items[j].rom)
    ensures forall i :: 0 <= i < |page.items| ==> FilesInOrder(db, page.items[i].rom.id, page.items[i].files)
    ensures page.total == |Catalogue(db, matches, p)| == |set r | r in db.roms && matches(r)|
    ensures forall i :: 0 <= i < |page.items| ==>
      page.items[i].fileName == if page.items[i].files == [] then None else Some(page.items[i].files[0].name)
  {
    SelectionIsOrdered(db, matches, p);
    var total := |Where(db.roms, matches)|;
    var rows := Rejoined(db, matches, p);
    RejoiningKeepsThePage(db, matches, p);
    SliceHasDistinctIds(db, matches, p);
    var byRom := FilesForRomIds(FileRows(db, IdsOf(rows)));
    forall r | r in rows ensures FilesOf(db, r.id) == if r.id in byRom then byRom[r.id] else [] {
      assert Grouped(FileRows(db, IdsOf(rows)), r.id, byRom);
      if r.id in byRom {
        GroupsAreFiles(db, IdsOf(rows), r.id);
      } else {
        NoGroupMeansNoFiles(db, IdsOf(rows), r.id);
      }
    }
    var items := AttachFiles(db, rows, byRom);
    PagesAreInOrder(db, matches, p);
    WhereCounts(db.roms, matches);
    forall i | 0 <= i < |items| ensures FilesInOrder(db, items[i].rom.id, items[i].files) {
      FilesAreInOrder(db, items[i].rom.id);
    }
    return Page(items, total);
  }

  lemma SliceHasDistinctIds(db: Database, matches: Rom -> bool, p: Params)
    requires PrimaryKeys(db)
    ensures var page := Slice(Catalogue(db, matches, p), p.limit, p.offset);
      forall i, j :: 0 <= i < j < |page| ==> page[i].id != page[j].id
  {
    var key := (r: Rom) => RomKey(p, r);
    SelectionIsOrdered(db, matches, p);
    var all := Catalogue(db, matches, p);
    SliceIsOrdered(all, key, p.limit, p.offset);
    var page := Slice(all, p.limit, p.offset);
    forall i, j | 0 <= i < j < |page| ensures page[i].id != page[j].id {
      KeyAsymmetric(key(page[i]), key(page[j]));
      assert page[i] in all && page[j] in all;
      if page[i].id == page[j].id {
        SameId(db.roms, page[i], page[j]);
      }
    }
  }

  // ---------- page after page ----------

  /** The order and the selection do not depend on the page that is asked for. */
  lemma CatalogueIgnoresPaging(db: Database, matches: Rom -> bool, p: Params, q: Params)
    requires PrimaryKeys(db) && p.sort == q.sort && p.descending == q.descending
    ensures Catalogue(db, matches, p) == Catalogue(db, matches, q)
  {
    SelectionIsOrdered(db, matches, p);
    SelectionIsOrdered(db, matches, q);
    var key := (r: Rom) => RomKey(q, r);
    var rows := Catalogue(db, matches, p);
    forall i, j | 0 <= i < j < |rows| ensures KeyLess(key(rows[i]), key(rows[j])) {
      assert RomKey(p, rows[i]) == key(rows[i]) && RomKey(p, rows[j]) == key(rows[j]);
    }
    OrderIsUnique(rows, Catalogue(db, matches, q), key);
  }

  function At(p: Params, offset: int): Params {
    p.(offset := offset)
  }

  /** Pages at `offset`, `offset + step`, ..., one after the other. */
  function Joined<T>(page: nat -> seq<T>, step: nat, offset: nat, count: nat): seq<T>
    decreases count
  {
    if count == 0 then [] else page(offset) + Joined(page, step, offset + step, count - 1)
  }

  function Rest<T>(rows: seq<T>, offset: nat): seq<T> {
    if offset <= |rows| then rows[offset..] else []
  }

  lemma OnePageMore<T>(rows: seq<T>, limit: nat, offset: nat)
    ensures Slice(rows, limit, offset) + Rest(rows, offset + limit) == Rest(rows, offset)
  {
    if offset + limit <= |rows| {
      assert rows[offset..] == rows[offset..offset + limit] + rows[offset + limit..];
    } else if offset <= |rows| {
      assert Slice(rows, limit, offset) == rows[offset..];
    }
  }

  lemma {:induction false} JoinedSlices<T>(rows: seq<T>, page: nat -> seq<T>, limit: nat, offset: nat, count: nat)
    requires limit > 0 && |rows| <= offset + count * limit
    requires forall o: nat :: page(o) == Slice(rows, limit, o)
    ensures Joined(page, limit, offset, count) == Rest(rows, offset)
    decreases count
  {
    if count > 0 {
      assert count * limit == limit + (count - 1) * limit;
      JoinedSlices(rows, page, limit, offset + limit, count - 1);
      OnePageMore(rows, limit, offset);
    }
  }

  lemma AttachConcat(db: Database, a: seq<Rom>, b: seq<Rom>)
    ensures AttachAll(db, a + b) == AttachAll(db, a) + AttachAll(db, b)
  {
  }

  lemma {:induction false} JoinedItems(
      db: Database, roms: nat -> seq<Rom>, items: nat -> seq<Item>, step: nat, offset: nat, count: nat)
    requires forall o: nat :: items(o) == AttachAll(db, roms(o))
    ensures Joined(items, step, offset, count) == AttachAll(db, Joined(roms, step, offset, count))
    decreases count
  {
    if count > 0 {
      JoinedItems(db, roms, items, step, offset + step, count - 1);
      AttachConcat(db, roms(offset), Joined(roms, step, offset + step, count - 1));
    }
  }

  lemma PageIsSlice(db: Database, matches: Rom -> bool, p: Params, offset: nat)
    requires PrimaryKeys(db)
    ensures Rejoined(db, matches, At(p, offset)) == Slice(Catalogue(db, matches, p), p.limit, offset)
  {
    RejoiningKeepsThePage(db, matches, At(p, offset));
    CatalogueIgnoresPaging(db, matches, p, At(p, offset));
  }

  /** The ROMs and the items of the pages of one query, each selected and joined again on its own. */
  function Pages(db: Database, matches: Rom -> bool, p: Params, count: nat): seq<Rom>
    requires p.limit > 0
  {
    Joined((o: nat) => Rejoined(db, matches, At(p, o)), p.limit, 0, count)
  }

  function PageItems(db: Database, matches: Rom -> bool, p: Params, count: nat): seq<Item>
    requires p.limit > 0
  {
    Joined((o: nat) => AttachAll(db, Rejoined(db, matches, At(p, o))), p.limit, 0, count)
  }

  /**
   The pages at offsets 0, limit, 2 * limit, ... of the same query, enough of them, are together the
   whole filtered and sorted catalogue: every matching ROM once, in order, with its files.
   */
  lemma PagesCoverTheCatalogue(db: Database, matches: Rom -> bool, p: Params, count: nat)
    requires PrimaryKeys(db) && p.limit > 0 && |Catalogue(db, matches, p)| <= count * p.limit
    ensures Pages(db, matches, p, count) == Catalogue(db, matches, p)
    ensures PageItems(db, matches, p, count) == AttachAll(db, Catalogue(db, matches, p))
    ensures forall r :: r in Pages(db, matches, p, count) <==> r in db.roms && matches(r)
    ensures RomsInOrder(p, Pages(db, matches, p, count))
  {
    var rows := Catalogue(db, matches, p);
    var roms := (o: nat) => Rejoined(db, matches, At(p, o));
    var items := (o: nat) => AttachAll(db, Rejoined(db, matches, At(p, o)));
    forall o: nat ensures roms(o) == Slice(rows, p.limit, o) {
      PageIsSlice(db, matches, p, o);
    }
    JoinedSlices(rows, roms, p.limit, 0, count);
    JoinedItems(db, roms, items, p.limit, 0, count);
    SelectionIsOrdered(db, matches, p);
    PagesAreInOrder(db, matches, p);
  }
}
