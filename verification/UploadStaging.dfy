/**
 Staging of uploads against a free-space margin: each upload reserves what it may write before its
 next check of the disk, and several uploads run at once.
 */
module UploadStaging {
  import opened Basics

  const MAX_U64: nat := 0xFFFF_FFFF_FFFF_FFFF

  function SaturatingAdd(a: nat, b: nat): nat {
    if a + b > MAX_U64 then MAX_U64 else a + b
  }

  function SaturatingSub(a: nat, b: nat): nat {
    if a < b then 0 else a - b
  }

  function Max(a: nat, b: nat): nat {
    if a < b then b else a
  }

  /** How many bytes may be written before the next check; nothing when the next chunk does not fit. */
  function BoundedDiskReservation(available: nat, margin: nat, interval: nat, chunk: nat): (r: Option<nat>)
    ensures r.Some? <==> chunk <= SaturatingSub(available, margin)
    ensures r.Some? && chunk > 0 ==> chunk <= r.value <= Max(interval, chunk) && r.value + margin <= available
  {
    var writable := SaturatingSub(available, margin);
    if writable < chunk then None
    else Some(if writable < Max(interval, chunk) then writable else Max(interval, chunk))
  }

  /** The reservation in force when a chunk is written: the running one, or a new one from the disk. */
  function Admit(reserved: nat, available: nat, margin: nat, interval: nat, chunk: nat): Option<nat> {
    if reserved < chunk then BoundedDiskReservation(available, margin, interval, chunk) else Some(reserved)
  }

  datatype Staged = Accepted(bytes: nat) | TooLarge | InsufficientStorage

  /** The chunk loop from chunk `i` on; `available[i]` is what the disk reports if it is asked there. */
  function StageFrom(chunks: seq<nat>, available: seq<nat>, limit: nat, margin: nat, interval: nat,
                     i: nat, size: nat, reserved: nat): Staged
    requires i <= |chunks| && |available| == |chunks|
    decreases |chunks| - i
  {
    if i == |chunks| then Accepted(size)
    else
      var size' := SaturatingAdd(size, chunks[i]);
      if size' > limit then TooLarge
      else
        var admitted := Admit(reserved, available[i], margin, interval, chunks[i]);
        if admitted.None? then InsufficientStorage
        else StageFrom(chunks, available, limit, margin, interval, i + 1, size',
                       SaturatingSub(admitted.value, chunks[i]))
  }

  method StageFileField(chunks: seq<nat>, available: seq<nat>, limit: nat, margin: nat, checkInterval: nat)
    returns (r: Staged)
    requires |available| == |chunks|
    ensures r == StageFrom(chunks, available, limit, margin, Max(checkInterval, 1), 0, 0, 0)
    ensures limit <= MAX_U64 ==> Answers(chunks, available, limit, margin, Max(checkInterval, 1), r)
  {
    if limit <= MAX_U64 {
      StagingAnswers(chunks, available, limit, margin, Max(checkInterval, 1));
    }
    var interval := Max(checkInterval, 1);
    var size: nat, reserved: nat := 0, 0;
    for i := 0 to |chunks|
      invariant StageFrom(chunks, available, limit, margin, interval, i, size, reserved)
             == StageFrom(chunks, available, limit, margin, interval, 0, 0, 0)
    {
      var chunk := chunks[i];
      size := SaturatingAdd(size, chunk);
      if size > limit {
        return TooLarge;
      }
      if reserved < chunk {
        var reservation := BoundedDiskReservation(available[i], margin, interval, chunk);
        if reservation.None? {
          return InsufficientStorage;
        }
        reserved := reservation.value;
      }
      assert reserved >= chunk;
      reserved := SaturatingSub(reserved, chunk);
    }
    return Accepted(size);
  }

  function Sum(s: seq<nat>): nat {
    if s == [] then 0 else s[0] + Sum(s[1..])
  }

  /** An accepted upload is within the limit and is reported with its length, which only a limit of all u64 can cap. */
  lemma {:induction false} AcceptedIsExact(chunks: seq<nat>, available: seq<nat>, limit: nat, margin: nat,
                                           interval: nat, i: nat, size: nat, reserved: nat)
    requires i <= |chunks| && |available| == |chunks| && size <= limit <= MAX_U64
    ensures var r := StageFrom(chunks, available, limit, margin, interval, i, size, reserved);
      && (r.Accepted? ==> r.bytes == SaturatingAdd(size, Sum(chunks[i..])) <= limit)
      && (r.Accepted? && limit < MAX_U64 ==> r.bytes == size + Sum(chunks[i..]))
      && (r.TooLarge? ==> size + Sum(chunks[i..]) > limit)
    decreases |chunks| - i
  {
    if i < |chunks| {
      assert chunks[i..][0] == chunks[i] && chunks[i..][1..] == chunks[i + 1..];
      var size' := SaturatingAdd(size, chunks[i]);
      var admitted := Admit(reserved, available[i], margin, interval, chunks[i]);
      if size' <= limit && admitted.Some? {
        AcceptedIsExact(chunks, available, limit, margin, interval, i + 1, size',
                        SaturatingSub(admitted.value, chunks[i]));
      }
    }
  }

  // ---------- what the loop writes between two looks at the disk ----------

  /**
   The chunks before `e` that were written on the check at chunk `c`, or without any check, fit it: they
   leave the margin free in what that check reported, and take no more than the interval or its first chunk.
   */
  predicate Fits(chunks: seq<nat>, available: seq<nat>, margin: nat, interval: nat, c: Option<nat>, e: nat)
    requires e <= |chunks| == |available| && (c.Some? ==> c.value < e)
  {
    match c
    case None => Sum(chunks[..e]) == 0
    case Some(at) =>
      Sum(chunks[at..e]) + margin <= available[at] && Sum(chunks[at..e]) <= Max(interval, chunks[at])
  }

  /** The check chunk `j` is written on: the one of the chunk before it, unless the chunk does not fit that any more. */
  function CheckFor(chunks: seq<nat>, available: seq<nat>, margin: nat, interval: nat, j: nat): (c: Option<nat>)
    requires j < |chunks| == |available|
    ensures c.Some? ==> c.value <= j
  {
    var last := if j == 0 then None else CheckFor(chunks, available, margin, interval, j - 1);
    if Fits(chunks, available, margin, interval, last, j + 1) then last else Some(j)
  }

  /** The disk has room when chunk `j` is written: it is not looked at, or reports the chunk and the margin. */
  predicate Room(chunks: seq<nat>, available: seq<nat>, margin: nat, interval: nat, j: nat)
    requires j < |chunks| == |available|
  {
    CheckFor(chunks, available, margin, interval, j) == Some(j) ==> chunks[j] + margin <= available[j]
  }

  /** The chunks up to `j` are more than the limit; no upload is more than a limit of all u64. */
  predicate TooMany(chunks: seq<nat>, limit: nat, j: nat)
    requires j < |chunks|
  {
    Sum(chunks[..j + 1]) > limit && limit < MAX_U64
  }

  predicate Passes(chunks: seq<nat>, available: seq<nat>, limit: nat, margin: nat, interval: nat, j: nat)
    requires j < |chunks| == |available|
  {
    !TooMany(chunks, limit, j) && Room(chunks, available, margin, interval, j)
  }

  /** Every chunk passed, or the first that did not gave the answer. */
  ghost predicate Answers(chunks: seq<nat>, available: seq<nat>, limit: nat, margin: nat, interval: nat, r: Staged)
    requires |chunks| == |available|
  {
    match r
    case Accepted(bytes) =>
      bytes == SaturatingAdd(0, Sum(chunks)) &&
      forall j :: 0 <= j < |chunks| ==> Passes(chunks, available, limit, margin, interval, j)
    case TooLarge =>
      exists j ::
        0 <= j < |chunks| && TooMany(chunks, limit, j) && AllPass(chunks, available, limit, margin, interval, j)
    case InsufficientStorage =>
      exists j ::
        0 <= j < |chunks| && !TooMany(chunks, limit, j) && !Room(chunks, available, margin, interval, j) &&
        AllPass(chunks, available, limit, margin, interval, j)
  }

  ghost predicate AllPass(chunks: seq<nat>, available: seq<nat>, limit: nat, margin: nat, interval: nat, n: nat)
    requires n <= |chunks| == |available|
  {
    forall j :: 0 <= j < n ==> Passes(chunks, available, limit, margin, interval, j)
  }

  lemma {:induction false} SumOneMore(s: seq<nat>, i: nat, e: nat)
    requires i <= e < |s|
    ensures Sum(s[i..e + 1]) == Sum(s[i..e]) + s[e]
    decreases e - i
  {
    if i == e {
      assert s[i..e + 1] == [s[e]] && s[i..e] == [] && [s[e]][1..] == [];
    } else {
      assert s[i..e + 1][1..] == s[i + 1..e + 1] && s[i..e][1..] == s[i + 1..e];
      SumOneMore(s, i + 1, e);
    }
  }

  /** What may be written on a check: nothing on none. */
  function Budget(available: seq<nat>, margin: nat, interval: nat, chunks: seq<nat>, c: Option<nat>): int
    requires |chunks| == |available| && (c.Some? ==> c.value < |chunks|)
  {
    match c
    case None => 0
    case Some(at) =>
      var writable := available[at] - margin;
      if writable < Max(interval, chunks[at]) then writable else Max(interval, chunks[at])
  }

  /** What is left of it before chunk `j`. */
  function Left(chunks: seq<nat>, available: seq<nat>, margin: nat, interval: nat, c: Option<nat>, j: nat): int
    requires j <= |chunks| == |available| && (c.Some? ==> c.value < j)
  {
    var since := if c.None? then 0 else c.value;
    Budget(available, margin, interval, chunks, c) - Sum(chunks[since..j])
  }

  lemma LeftMeans(chunks: seq<nat>, available: seq<nat>, margin: nat, interval: nat, c: Option<nat>, j: nat)
    requires j < |chunks| == |available| && (c.Some? ==> c.value < j)
    ensures Fits(chunks, available, margin, interval, c, j + 1) <==>
            Left(chunks, available, margin, interval, c, j) >= chunks[j]
    ensures Left(chunks, available, margin, interval, c, j + 1) ==
            Left(chunks, available, margin, interval, c, j) - chunks[j]
  {
    match c {
      case None =>
        assert chunks[0..j + 1] == chunks[..j + 1];
        SumOneMore(chunks, 0, j);
      case Some(at) =>
        SumOneMore(chunks, at, j);
    }
  }

  /** The check before chunk `j`. */
  function Last(chunks: seq<nat>, available: seq<nat>, margin: nat, interval: nat, j: nat): (c: Option<nat>)
    requires j <= |chunks| == |available|
    ensures c.Some? ==> c.value < j
  {
    if j == 0 then None else CheckFor(chunks, available, margin, interval, j - 1)
  }

  lemma OneChunk(chunks: seq<nat>, available: seq<nat>, margin: nat, interval: nat, j: nat, reserved: nat)
    requires j < |chunks| == |available|
    requires reserved == Left(chunks, available, margin, interval, Last(chunks, available, margin, interval, j), j)
    ensures var admitted := Admit(reserved, available[j], margin, interval, chunks[j]);
      && (admitted.Some? <==> Room(chunks, available, margin, interval, j))
      && (admitted.Some? ==>
            Fits(chunks, available, margin, interval, CheckFor(chunks, available, margin, interval, j), j + 1) &&
            SaturatingSub(admitted.value, chunks[j]) ==
              Left(chunks, available, margin, interval, CheckFor(chunks, available, margin, interval, j), j + 1))
  {
    var last := Last(chunks, available, margin, interval, j);
    LeftMeans(chunks, available, margin, interval, last, j);
    if reserved < chunks[j] {
      assert CheckFor(chunks, available, margin, interval, j) == Some(j);
      OneCheck(chunks, available, margin, interval, j);
    } else {
      assert CheckFor(chunks, available, margin, interval, j) == last;
    }
  }

  /** A check at chunk `j` goes through exactly if there is room, and what is left of it is counted from there. */
  lemma OneCheck(chunks: seq<nat>, available: seq<nat>, margin: nat, interval: nat, j: nat)
    requires j < |chunks| == |available| && chunks[j] > 0
    ensures var reservation := BoundedDiskReservation(available[j], margin, interval, chunks[j]);
      && (reservation.Some? <==> chunks[j] + margin <= available[j])
      && (reservation.Some? ==>
            Fits(chunks, available, margin, interval, Some(j), j + 1) &&
            SaturatingSub(reservation.value, chunks[j]) == Left(chunks, available, margin, interval, Some(j), j + 1))
  {
    assert chunks[j..j + 1] == [chunks[j]] && [chunks[j]][1..] == [];
    assert Sum(chunks[j..j + 1]) == chunks[j];
  }

  lemma OneSize(chunks: seq<nat>, limit: nat, i: nat, size: nat)
    requires i < |chunks| && limit <= MAX_U64 && size == SaturatingAdd(0, Sum(chunks[..i]))
    ensures SaturatingAdd(size, chunks[i]) == SaturatingAdd(0, Sum(chunks[..i + 1]))
    ensures SaturatingAdd(size, chunks[i]) > limit <==> TooMany(chunks, limit, i)
  {
    SumOneMore(chunks, 0, i);
    assert chunks[0..i + 1] == chunks[..i + 1] && chunks[0..i] == chunks[..i];
  }

  /** The loop has come to chunk `i`, with this size and this reservation. */
  ghost predicate Reached(chunks: seq<nat>, available: seq<nat>, limit: nat, margin: nat, interval: nat,
                          i: nat, size: nat, reserved: nat)
    requires i <= |chunks| == |available|
  {
    size == SaturatingAdd(0, Sum(chunks[..i])) && AllPass(chunks, available, limit, margin, interval, i) &&
    reserved == Left(chunks, available, margin, interval, Last(chunks, available, margin, interval, i), i)
  }

  lemma OneTurn(chunks: seq<nat>, available: seq<nat>, limit: nat, margin: nat, interval: nat,
                i: nat, size: nat, reserved: nat)
    requires i < |chunks| == |available| && limit <= MAX_U64
    requires Reached(chunks, available, limit, margin, interval, i, size, reserved)
    ensures var size' := SaturatingAdd(size, chunks[i]);
      var admitted := Admit(reserved, available[i], margin, interval, chunks[i]);
      if size' > limit then Answers(chunks, available, limit, margin, interval, TooLarge)
      else if admitted.None? then Answers(chunks, available, limit, margin, interval, InsufficientStorage)
      else Reached(chunks, available, limit, margin, interval, i + 1, size', SaturatingSub(admitted.value, chunks[i]))
  {
    OneSize(chunks, limit, i, size);
    OneChunk(chunks, available, margin, interval, i, reserved);
  }

  lemma {:induction false} StagedFrom(chunks: seq<nat>, available: seq<nat>, limit: nat, margin: nat, interval: nat,
                                      i: nat, size: nat, reserved: nat)
    requires i <= |chunks| == |available| && limit <= MAX_U64
    requires Reached(chunks, available, limit, margin, interval, i, size, reserved)
    ensures Answers(chunks, available, limit, margin, interval,
                    StageFrom(chunks, available, limit, margin, interval, i, size, reserved))
    decreases |chunks| - i
  {
    if i == |chunks| {
      assert chunks[..i] == chunks;
    } else {
      OneTurn(chunks, available, limit, margin, interval, i, size, reserved);
      var size' := SaturatingAdd(size, chunks[i]);
      var admitted := Admit(reserved, available[i], margin, interval, chunks[i]);
      if size' <= limit && admitted.Some? {
        StagedFrom(chunks, available, limit, margin, interval, i + 1, size', SaturatingSub(admitted.value, chunks[i]));
      }
    }
  }

  /**
   The loop answers by the first chunk that is over the limit, or for which the disk is due to be looked at
   and has no room, and accepts if there is none.
   */
  lemma StagingAnswers(chunks: seq<nat>, available: seq<nat>, limit: nat, margin: nat, interval: nat)
    requires |chunks| == |available| && limit <= MAX_U64
    ensures Answers(chunks, available, limit, margin, interval,
                    StageFrom(chunks, available, limit, margin, interval, 0, 0, 0))
  {
    assert chunks[..0] == [];
    StagedFrom(chunks, available, limit, margin, interval, 0, 0, 0);
  }

  /**
   While all chunks pass, those written since the last look at the disk leave the margin free in what it
   reported, and are at most the interval or the first of them; before the first look nothing is written.
   */
  lemma WritesFitTheCheck(chunks: seq<nat>, available: seq<nat>, margin: nat, interval: nat, j: nat)
    requires j < |chunks| == |available| && Room(chunks, available, margin, interval, j)
    ensures Fits(chunks, available, margin, interval, CheckFor(chunks, available, margin, interval, j), j + 1)
  {
    assert chunks[j..j + 1] == [chunks[j]] && [chunks[j]][1..] == [];
    assert Sum(chunks[j..j + 1]) == chunks[j];
  }

  // ---------- several uploads on one disk ----------

  /**
   One upload: its reservation, the chunk being written, how much of that chunk the writer has taken,
   and the bytes it has taken but not yet put on disk.
   */
  datatype Upload = Upload(reserved: nat, chunk: nat, taken: nat, buffered: nat)

  const IDLE := Upload(0, 0, 0, 0)

  datatype Limits = Limits(margin: nat, interval: nat, maxChunk: nat, buffer: nat) {
    /** The most one reservation can be. */
    function Largest(): nat {
      Max(interval, maxChunk)
    }
  }

  datatype Disk = Disk(free: int, uploads: seq<Upload>)

  datatype Event =
    | Reserve(i: nat, chunk: nat)
    | Write(i: nat, taken: nat, flushed: nat)
    | ChunkDone(i: nat)
    | End(i: nat)
    | Release(bytes: nat)

  ghost predicate Enabled(limits: Limits, d: Disk, e: Event) {
    match e
    case Reserve(i, chunk) => i < |d.uploads| && d.uploads[i].chunk == 0 && 0 < chunk <= limits.maxChunk && d.free >= 0
    case Write(i, taken, flushed) =>
      i < |d.uploads| &&
      var u := d.uploads[i];
      u.taken + taken <= u.chunk && flushed <= u.buffered + taken &&
      u.buffered + taken - flushed <= limits.buffer && flushed <= d.free
    case ChunkDone(i) => i < |d.uploads| && d.uploads[i].taken == d.uploads[i].chunk
    case End(i) => i < |d.uploads|
    case Release(_) => true
  }

  /** A failed check ends the upload; ending one, in any way, gives its slot back with nothing reserved. */
  function Next(limits: Limits, d: Disk, e: Event): Disk
    requires Enabled(limits, d, e)
  {
    match e
    case Reserve(i, chunk) =>
      var u := d.uploads[i];
      var admitted := Admit(u.reserved, d.free, limits.margin, limits.interval, chunk);
      if admitted.None? then d.(uploads := d.uploads[i := IDLE])
      else d.(uploads := d.uploads[i := u.(reserved := admitted.value, chunk := chunk, taken := 0)])
    case Write(i, taken, flushed) =>
      var u := d.uploads[i];
      Disk(d.free - flushed,
           d.uploads[i := u.(taken := u.taken + taken, buffered := u.buffered + taken - flushed)])
    case ChunkDone(i) =>
      var u := d.uploads[i];
      d.(uploads := d.uploads[i := Upload(SaturatingSub(u.reserved, u.chunk), 0, 0, u.buffered)])
    case End(i) => d.(uploads := d.uploads[i := IDLE])
    case Release(bytes) => d.(free := d.free + bytes)
  }

  /**
   One turn of the chunk loop is a reservation, the writing of the chunk and its end, with the same
   reservation before and after, whatever of the chunk the writer passes on to the disk.
   */
  lemma TurnIsThreeEvents(limits: Limits, d: Disk, i: nat, chunk: nat, flushed: nat)
    requires i < |d.uploads| && d.uploads[i] == Upload(d.uploads[i].reserved, 0, 0, d.uploads[i].buffered)
    requires 0 < chunk <= limits.maxChunk && d.free >= flushed
    requires flushed <= d.uploads[i].buffered + chunk <= limits.buffer + flushed
    ensures var u := d.uploads[i];
      var admitted := Admit(u.reserved, d.free, limits.margin, limits.interval, chunk);
      var d1 := Next(limits, d, Reserve(i, chunk));
      && Enabled(limits, d, Reserve(i, chunk))
      && (admitted.None? ==> d1 == d.(uploads := d.uploads[i := IDLE]))
      && (admitted.Some? ==>
            Enabled(limits, d1, Write(i, chunk, flushed)) &&
            var d2 := Next(limits, d1, Write(i, chunk, flushed));
            Enabled(limits, d2, ChunkDone(i)) &&
            var d3 := Next(limits, d2, ChunkDone(i));
            d3.free == d.free - flushed &&
            d3.uploads == d.uploads[i := Upload(SaturatingSub(admitted.value, chunk), 0, 0,
                                                u.buffered + chunk - flushed)])
  {
  }

  /** What an upload may still put on disk before it looks at the disk again. */
  function Outstanding(u: Upload): int {
    u.reserved - u.taken + u.buffered
  }

  function TotalOutstanding(uploads: seq<Upload>): int {
    if uploads == [] then 0 else Outstanding(uploads[0]) + TotalOutstanding(uploads[1..])
  }

  lemma {:induction false} UpdateOne(uploads: seq<Upload>, i: nat, u: Upload)
    requires i < |uploads|
    ensures TotalOutstanding(uploads[i := u]) == TotalOutstanding(uploads) - Outstanding(uploads[i]) + Outstanding(u)
    decreases |uploads|
  {
    if i > 0 {
      assert uploads[i := u][1..] == uploads[1..][i - 1 := u];
      UpdateOne(uploads[1..], i - 1, u);
    } else {
      assert uploads[i := u][1..] == uploads[1..];
    }
  }

  ghost predicate UploadOk(limits: Limits, u: Upload) {
    u.taken <= u.chunk <= u.reserved <= limits.Largest() && u.buffered <= limits.buffer
  }

  ghost predicate AllOk(limits: Limits, uploads: seq<Upload>) {
    forall i :: 0 <= i < |uploads| ==> UploadOk(limits, uploads[i])
  }

  /** k times a, one at a time. */
  function Times(k: nat, a: nat): nat {
    if k == 0 then 0 else a + Times(k - 1, a)
  }

  lemma {:induction false} TimesIsProduct(k: nat, a: nat)
    ensures Times(k, a) == k * a
  {
    if k > 0 {
      TimesIsProduct(k - 1, a);
      assert k * a == a + (k - 1) * a;
    }
  }

  lemma {:induction false} EachIsBounded(limits: Limits, uploads: seq<Upload>)
    requires AllOk(limits, uploads)
    ensures 0 <= TotalOutstanding(uploads) <= Times(|uploads|, limits.Largest()) + Times(|uploads|, limits.buffer)
    decreases |uploads|
  {
    if uploads != [] {
      EachIsBounded(limits, uploads[1..]);
      assert UploadOk(limits, uploads[0]);
    }
  }

  /** The guaranteed floor with `n` upload slots. */
  function Floor(limits: Limits, n: nat): int {
    limits.margin - Times(if n == 0 then 0 else n - 1, limits.Largest()) - Times(n, limits.buffer)
  }

  function Least(a: int, b: int): int {
    if b < a then b else a
  }

  /** Free space, less everything that may still be written unchecked, stays above a bound. */
  ghost predicate Inv(limits: Limits, d: Disk, n: nat, bound: int) {
    |d.uploads| == n && AllOk(limits, d.uploads) &&
    d.free - TotalOutstanding(d.uploads) >= bound
  }

  lemma OthersAreBounded(limits: Limits, uploads: seq<Upload>, i: nat)
    requires i < |uploads| && AllOk(limits, uploads)
    ensures TotalOutstanding(uploads) - Outstanding(uploads[i])
         <= Times(|uploads| - 1, limits.Largest()) + Times(|uploads| - 1, limits.buffer)
  {
    EachIsBounded(limits, uploads[..i] + uploads[i + 1..]);
    SplitOff(uploads, i);
  }

  lemma {:induction false} SplitOff(uploads: seq<Upload>, i: nat)
    requires i < |uploads|
    ensures TotalOutstanding(uploads) == Outstanding(uploads[i]) + TotalOutstanding(uploads[..i] + uploads[i + 1..])
    decreases i
  {
    if i > 0 {
      SplitOff(uploads[1..], i - 1);
      assert (uploads[..i] + uploads[i + 1..])[1..] == uploads[1..][..i - 1] + uploads[1..][i..];
    } else {
      assert uploads[..0] + uploads[1..] == uploads[1..];
    }
  }

  /** Changing one upload keeps the bound if what it may still write is paid for. */
  lemma ChangeOne(limits: Limits, d: Disk, i: nat, u: Upload, free: int, n: nat, bound: int)
    requires Inv(limits, d, n, bound) && i < n && UploadOk(limits, u)
    requires free - Outstanding(u) - (TotalOutstanding(d.uploads) - Outstanding(d.uploads[i])) >= bound
    ensures Inv(limits, Disk(free, d.uploads[i := u]), n, bound)
  {
    UpdateOne(d.uploads, i, u);
  }

  /** A new reservation is covered by the margin it was checked against. */
  lemma ReserveKeepsFloor(limits: Limits, d: Disk, e: Event, n: nat, bound: int)
    requires bound <= Floor(limits, n)
    requires e.Reserve? && Inv(limits, d, n, bound) && Enabled(limits, d, e)
    ensures Inv(limits, Next(limits, d, e), n, bound)
  {
    var u := d.uploads[e.i];
    assert UploadOk(limits, u) && u.taken == 0;
    var admitted := Admit(u.reserved, d.free, limits.margin, limits.interval, e.chunk);
    if admitted.None? {
      ChangeOne(limits, d, e.i, IDLE, d.free, n, bound);
    } else {
      if u.reserved < e.chunk {
        OthersAreBounded(limits, d.uploads, e.i);
      }
      ChangeOne(limits, d, e.i, u.(reserved := admitted.value, chunk := e.chunk, taken := 0), d.free, n, bound);
    }
  }

  lemma StepKeepsFloor(limits: Limits, d: Disk, e: Event, n: nat, bound: int)
    requires bound <= Floor(limits, n)
    requires Inv(limits, d, n, bound) && Enabled(limits, d, e)
    ensures Inv(limits, Next(limits, d, e), n, bound)
  {
    match e
    case Reserve(_, _) => ReserveKeepsFloor(limits, d, e, n, bound);
    case Write(i, taken, flushed) =>
      var u := d.uploads[i];
      assert UploadOk(limits, u);
      ChangeOne(limits, d, i, u.(taken := u.taken + taken, buffered := u.buffered + taken - flushed),
                d.free - flushed, n, bound);
    case ChunkDone(i) =>
      var u := d.uploads[i];
      assert UploadOk(limits, u);
      ChangeOne(limits, d, i, Upload(SaturatingSub(u.reserved, u.chunk), 0, 0, u.buffered), d.free, n, bound);
    case End(i) =>
      assert UploadOk(limits, d.uploads[i]);
      ChangeOne(limits, d, i, IDLE, d.free, n, bound);
    case Release(_) =>
  }

  ghost predicate Allowed(limits: Limits, d: Disk, events: seq<Event>)
    decreases |events|
  {
    events == [] || (Enabled(limits, d, events[0]) && Allowed(limits, Next(limits, d, events[0]), events[1..]))
  }

  ghost function After(limits: Limits, d: Disk, events: seq<Event>): Disk
    requires Allowed(limits, d, events)
    decreases |events|
  {
    if events == [] then d else After(limits, Next(limits, d, events[0]), events[1..])
  }

  lemma {:induction false} RunKeepsFloor(limits: Limits, d: Disk, events: seq<Event>, n: nat, bound: int)
    requires bound <= Floor(limits, n)
    requires Inv(limits, d, n, bound) && Allowed(limits, d, events)
    ensures Inv(limits, After(limits, d, events), n, bound)
    decreases |events|
  {
    if events != [] {
      StepKeepsFloor(limits, d, events[0], n, bound);
      RunKeepsFloor(limits, Next(limits, d, events[0]), events[1..], n, bound);
    }
  }

  ghost predicate AllIdle(uploads: seq<Upload>) {
    forall i :: 0 <= i < |uploads| ==> uploads[i] == IDLE
  }

  lemma {:induction false} IdleTotal(uploads: seq<Upload>)
    requires AllIdle(uploads)
    ensures TotalOutstanding(uploads) == 0
    decreases |uploads|
  {
    if uploads != [] {
      IdleTotal(uploads[1..]);
    }
  }

  lemma IdleIsFine(limits: Limits, d: Disk, bound: int)
    requires AllIdle(d.uploads) && bound <= d.free
    ensures Inv(limits, d, |d.uploads|, bound)
  {
    IdleTotal(d.uploads);
    forall i | 0 <= i < |d.uploads| ensures UploadOk(limits, d.uploads[i]) {
      assert d.uploads[i] == IDLE;
    }
  }

  /** The running reservation covers the chunk being written, so subtracting it never underflows. */
  ghost predicate Covered(d: Disk) {
    forall i :: 0 <= i < |d.uploads| ==> d.uploads[i].chunk <= d.uploads[i].reserved
  }

  lemma FloorHolds(limits: Limits, d: Disk, n: nat, bound: int)
    requires Inv(limits, d, n, bound)
    ensures d.free >= bound && Covered(d)
  {
    EachIsBounded(limits, d.uploads);
    forall i | 0 <= i < |d.uploads| ensures d.uploads[i].chunk <= d.uploads[i].reserved {
      assert UploadOk(limits, d.uploads[i]);
    }
  }

  lemma FloorIs(limits: Limits, n: nat)
    requires n > 0
    ensures Floor(limits, n) == limits.margin - (n - 1) * limits.Largest() - n * limits.buffer
  {
    TimesIsProduct(n - 1, limits.Largest());
    TimesIsProduct(n, limits.buffer);
  }

  /**
   In every interleaving of n upload slots, while only uploads consume space, free space never falls
   below the margin less one largest reservation per other slot and one write buffer per slot, or
   below where it started; and no reservation is smaller than the chunk written against it.
   */
  lemma FreeSpaceHasAFloor(limits: Limits, d: Disk, events: seq<Event>)
    requires d.uploads != [] && Allowed(limits, d, events)
    requires AllIdle(d.uploads)
    ensures var end := After(limits, d, events);
      && end.free >= Least(d.free, limits.margin - (|d.uploads| - 1) * limits.Largest() - |d.uploads| * limits.buffer)
      && Covered(end)
  {
    var n := |d.uploads|;
    var bound := Least(d.free, Floor(limits, n));
    IdleIsFine(limits, d, bound);
    RunKeepsFloor(limits, d, events, n, bound);
    FloorHolds(limits, After(limits, d, events), n, bound);
    FloorIs(limits, n);
  }
}
