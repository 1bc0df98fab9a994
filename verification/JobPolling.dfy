/**
 A server job and the page that follows it, run together: the server appends and trims, the page asks
 at any number up to its cursor, and answers arrive late, repeatedly, out of order or never.
 */
module JobPolling {
  import opened Basics
  import opened DisplayText
  import opened EventLog
  import opened Transcript
  import opened JobLog

  // ---------- answers are pieces of the log ----------

  lemma {:induction false} InOrderStays(events: seq<Event>)
    requires Increasing(events)
    ensures ByNumber(events) == events
    decreases |events|
  {
    if events != [] {
      FirstIsLeast(events);
      InOrderStays(events[1..]);
      assert events[1..] != [] ==> events[1..][0] in events[1..];
      assert events == [events[0]] + events[1..];
    }
  }

  /** A snapshot of the kept events is a piece of the log, for every page that is at `after` or further. */
  lemma SnapshotIsPiece(log: seq<Event>, floor: int, after: nat, truncated: bool, cursor: int)
    requires Numbered(log) && after <= |log| && after <= cursor
    ensures Piece(Snapshot(Above(Kept(log, floor), after), |log|, truncated), after, floor).Of(log, cursor)
  {
    AboveOfKept(log, floor, after);
    assert log[after..] == log[after..|log|];
    SliceIncreases(log, after, |log|);
    KeptIncreases(log[after..], floor);
    InOrderStays(Kept(log[after..], floor));
  }

  /** A piece admits what it leaves out: lines dropped from it are marked. */
  ghost predicate Marked(log: seq<Event>, piece: Piece)
    requires 0 <= piece.from <= piece.snapshot.next <= |log|
  {
    Dropped(log[piece.from..piece.snapshot.next], piece.floor) != [] ==> piece.snapshot.truncated
  }

  /** A piece stays one, with its mark, while the log goes on. */
  lemma PieceStays(log: seq<Event>, more: seq<Event>, piece: Piece, cursor: int)
    requires piece.Of(log, cursor)
    ensures piece.Of(log + more, cursor) && (Marked(log, piece) ==> Marked(log + more, piece))
  {
    assert (log + more)[piece.from..piece.snapshot.next] == log[piece.from..piece.snapshot.next];
  }

  lemma {:induction false} DroppedConcat(a: seq<Event>, b: seq<Event>, floor: int)
    ensures Dropped(a + b, floor) == Dropped(a, floor) + Dropped(b, floor)
    decreases |a|
  {
    if a == [] {
      assert a + b == b;
    } else {
      assert (a + b)[1..] == a[1..] + b;
      DroppedConcat(a[1..], b, floor);
    }
  }

  lemma NothingDroppedInPart(log: seq<Event>, from: int, end: int, floor: int)
    requires 0 <= from <= end <= |log| && Dropped(log, floor) == []
    ensures Dropped(log[from..end], floor) == []
  {
    assert log == log[..from] + (log[from..end] + log[end..]);
    DroppedConcat(log[..from], log[from..end] + log[end..], floor);
    DroppedConcat(log[from..end], log[end..], floor);
  }

  // ---------- runs ----------

  /** `sent` are the answers to this page, `received` the ones that have arrived, in the order they did. */
  datatype System = System(record: Record, sent: seq<Piece>, page: Progress, received: seq<Piece>)

  const BEGIN := System(NEW_RECORD, [], START, [])

  datatype Action =
    | Appending(phaseEvent: bool, text: string)
    | Answering(after: nat)
    | Delivering(i: nat)
    | Reloading

  /** A request names a number the page has reached; the numbers of the log stay within the page's range. */
  predicate Enabled(sys: System, a: Action) {
    match a
    case Appending(_, _) => |sys.record.log| < MAX_SAFE_INTEGER
    case Answering(after) => after <= sys.page.cursor
    case Delivering(i) => i < |sys.sent|
    case Reloading => true
  }

  function Next(sys: System, a: Action): System
    requires Enabled(sys, a)
  {
    match a
    case Appending(phaseEvent, text) => sys.(record := Appended(sys.record, phaseEvent, text))
    case Answering(after) =>
      (match SnapshotOf(sys.record, after)
       case None => sys
       case Some(s) => sys.(sent := sys.sent + [Piece(s, after, sys.record.floor)]))
    case Delivering(i) =>
      sys.(page := Applied(sys.page, sys.sent[i].snapshot), received := sys.received + [sys.sent[i]])
    case Reloading => System(sys.record, [], START, [])
  }

  predicate Allowed(sys: System, actions: seq<Action>)
    decreases |actions|
  {
    actions == [] || (Enabled(sys, actions[0]) && Allowed(Next(sys, actions[0]), actions[1..]))
  }

  function After(sys: System, actions: seq<Action>): System
    requires Allowed(sys, actions)
    decreases |actions|
  {
    if actions == [] then sys else After(Next(sys, actions[0]), actions[1..])
  }

  // ---------- the invariant ----------

  ghost predicate Sent(sys: System, piece: Piece) {
    piece.Of(sys.record.log, sys.page.cursor) && Marked(sys.record.log, piece)
  }

  /** The page shows every output line up to its cursor, or admits that it does not. */
  ghost predicate HonestPage(log: seq<Event>, page: Progress) {
    0 <= page.cursor <= |log| && (page.truncated || page.transcript == Only(log[..page.cursor], false))
  }

  ghost predicate Inv(sys: System) {
    var log := sys.record.log;
    && sys.record.Valid() && Log(log) && HonestPage(log, sys.page)
    && (forall piece :: piece in sys.sent ==> Sent(sys, piece))
    && AllPieces(log, START, sys.received) && sys.page == Following(START, sys.received)
  }

  lemma {:induction false} AllPiecesStay(log: seq<Event>, more: seq<Event>, p: Progress, pieces: seq<Piece>)
    requires AllPieces(log, p, pieces)
    ensures AllPieces(log + more, p, pieces)
    decreases |pieces|
  {
    if pieces != [] {
      PieceStays(log, more, pieces[0], p.cursor);
      AllPiecesStay(log, more, Applied(p, pieces[0].snapshot), pieces[1..]);
    }
  }

  lemma {:induction false} OnePieceMore(log: seq<Event>, p: Progress, pieces: seq<Piece>, piece: Piece)
    requires AllPieces(log, p, pieces) && piece.Of(log, Following(p, pieces).cursor)
    ensures AllPieces(log, p, pieces + [piece])
    ensures Following(p, pieces + [piece]) == Applied(Following(p, pieces), piece.snapshot)
    decreases |pieces|
  {
    if pieces == [] {
      assert pieces + [piece] == [piece] && [piece][1..] == [];
    } else {
      assert (pieces + [piece])[1..] == pieces[1..] + [piece];
      OnePieceMore(log, Applied(p, pieces[0].snapshot), pieces[1..], piece);
    }
  }

  lemma AppendingKeepsInv(sys: System, a: Action)
    requires a.Appending? && Inv(sys) && Enabled(sys, a)
    ensures Inv(Next(sys, a))
  {
    var log := sys.record.log;
    AppendedMeans(sys.record, a.phaseEvent, a.text);
    if |log| < MAX_SEQ {
      var more := [Entry(sys.record, a.phaseEvent, a.text)];
      AllPiecesStay(log, more, START, sys.received);
      assert (log + more)[..sys.page.cursor] == log[..sys.page.cursor];
      forall piece | piece in sys.sent ensures Sent(Next(sys, a), piece) {
        assert Sent(sys, piece);
        PieceStays(log, more, piece, sys.page.cursor);
      }
    }
  }

  lemma AnsweringKeepsInv(sys: System, a: Action)
    requires a.Answering? && Inv(sys) && Enabled(sys, a)
    ensures Inv(Next(sys, a))
  {
    var r := sys.record;
    var piece := Piece(SnapshotOf(r, a.after).value, a.after, r.floor);
    SnapshotIsPiece(r.log, r.floor, a.after, r.truncated, sys.page.cursor);
    if Dropped(r.log, r.floor) == [] {
      NothingDroppedInPart(r.log, a.after, |r.log|, r.floor);
    }
    assert Sent(Next(sys, a), piece);
    forall p | p in Next(sys, a).sent ensures Sent(Next(sys, a), p) {
      if p != piece {
        assert p in sys.sent && Sent(sys, p);
      }
    }
  }

  /** A piece that is marked when it misses a line leaves the page honest. */
  lemma PiecesAreHonest(log: seq<Event>, page: Progress, piece: Piece)
    requires Log(log) && HonestPage(log, page) && piece.Of(log, page.cursor) && Marked(log, piece)
    ensures HonestPage(log, Applied(page, piece.snapshot))
  {
    NewsOfPiece(log, page, piece);
    var c := Later(page.cursor, piece.snapshot.next);
    SliceOutputs(log, page.cursor, c, piece.floor);
    if !piece.snapshot.truncated && c > page.cursor {
      NothingMissed(log, page.cursor, piece);
    }
  }

  lemma SliceOfSlice(log: seq<Event>, from: int, middle: int, end: int)
    requires 0 <= from <= middle <= end <= |log|
    ensures log[from..end] == log[from..middle] + log[middle..end]
  {
  }

  lemma NothingMissed(log: seq<Event>, cursor: int, piece: Piece)
    requires piece.Of(log, cursor) && Marked(log, piece) && !piece.snapshot.truncated
    requires 0 <= cursor < piece.snapshot.next
    ensures Dropped(log[cursor..piece.snapshot.next], piece.floor) == []
  {
    SliceOfSlice(log, piece.from, cursor, piece.snapshot.next);
    DroppedConcat(log[piece.from..cursor], log[cursor..piece.snapshot.next], piece.floor);
  }

  lemma DeliveringKeepsInv(sys: System, a: Action)
    requires a.Delivering? && Inv(sys) && Enabled(sys, a)
    ensures Inv(Next(sys, a))
  {
    var log, piece := sys.record.log, sys.sent[a.i];
    assert piece in sys.sent && Sent(sys, piece);
    NewsOfPiece(log, sys.page, piece);
    PiecesAreHonest(log, sys.page, piece);
    OnePieceMore(log, START, sys.received, piece);
    forall p | p in sys.sent ensures Sent(Next(sys, a), p) {
      assert Sent(sys, p);
    }
  }

  lemma StepKeepsInv(sys: System, a: Action)
    requires Inv(sys) && Enabled(sys, a)
    ensures Inv(Next(sys, a))
  {
    match a
    case Appending(_, _) => AppendingKeepsInv(sys, a);
    case Answering(_) => AnsweringKeepsInv(sys, a);
    case Delivering(_) => DeliveringKeepsInv(sys, a);
    case Reloading => assert sys.record.log[..0] == [];
  }

  lemma {:induction false} RunKeepsInv(sys: System, actions: seq<Action>)
    requires Inv(sys) && Allowed(sys, actions)
    ensures Inv(After(sys, actions))
    decreases |actions|
  {
    if actions != [] {
      StepKeepsInv(sys, actions[0]);
      RunKeepsInv(Next(sys, actions[0]), actions[1..]);
    }
  }

  // ---------- every run ----------

  /**
   However answers overlap, repeat, overtake each other or get lost, and whatever the server drops: the
   phases of the page are the last 64 of the server's log up to the cursor; its transcript is the last
   512 output lines exactly when no piece it received missed a line, or 512 lines have come since; the
   page is marked when a line is missing; and the server never refuses its cursor.
   */
  lemma PageFollowsTheServer(actions: seq<Action>)
    requires Allowed(BEGIN, actions)
    ensures var end := After(BEGIN, actions);
      var log := end.record.log;
      && Log(log) && AllPieces(log, START, end.received)
      && PhasesInStep(log, end.page)
      && (InStep(log, end.page) <==> Filled(Gap(log, START, end.received, None)))
      && (end.page.transcript != Only(log[..end.page.cursor], false) ==> end.page.truncated)
      && SnapshotOf(end.record, end.page.cursor).Some?
  {
    BeginIsSound();
    RunKeepsInv(BEGIN, actions);
    var end := After(BEGIN, actions);
    PiecesReconstructTheLog(end.record.log, end.received);
  }

  lemma BeginIsSound()
    ensures Inv(BEGIN)
  {
    assert Only(BEGIN.record.log[..0], false) == [];
  }

  /** A page that is loaded again and polls once. */
  function Reloaded(r: Record): System {
    Next(Next(System(r, [], START, []), Answering(0)), Delivering(0))
  }

  lemma ReloadedPage(r: Record)
    requires r.Valid() && Log(r.log)
    ensures var page := Reloaded(r).page;
      && page.cursor == |r.log| && PhasesInStep(r.log, page)
      && (InStep(r.log, page) <==> Dropped(r.log, r.floor) == [] || |Only(r.Events(), false)| >= TRANSCRIPT_LIMIT)
  {
    var piece := Piece(SnapshotOf(r, 0).value, 0, r.floor);
    SnapshotIsPiece(r.log, r.floor, 0, r.truncated, 0);
    assert r.log[..0] == [] && r.log[0..|r.log|] == r.log;
    NewsOfPiece(r.log, START, piece);
    PhasesFollowTheLog(r.log, START, piece);
    WhenTranscriptFollows(r.log, START, piece);
  }

  lemma ReloadingIsARun(sys: System)
    requires |sys.record.log| <= MAX_SAFE_INTEGER
    ensures var reload := [Reloading, Answering(0), Delivering(0)];
      Allowed(sys, reload) && After(sys, reload) == Reloaded(sys.record)
  {
    var reload := [Reloading, Answering(0), Delivering(0)];
    assert reload[1..] == [Answering(0), Delivering(0)] && reload[1..][1..] == [Delivering(0)];
    assert reload[1..][1..][1..] == [];
  }

  /**
   A page that is loaded again in any reachable state and polls once shows the last 512 output lines of
   the whole log exactly when the server has dropped none, or still keeps 512.
   */
  lemma WhenReloadingShowsAll(actions: seq<Action>)
    requires Allowed(BEGIN, actions)
    ensures var end, reload := After(BEGIN, actions), [Reloading, Answering(0), Delivering(0)];
      && Allowed(end, reload)
      && var r, page := end.record, After(end, reload).page;
      page.cursor == |r.log| && PhasesInStep(r.log, page) &&
      (InStep(r.log, page) <==> Dropped(r.log, r.floor) == [] || |Only(r.Events(), false)| >= TRANSCRIPT_LIMIT)
  {
    BeginIsSound();
    RunKeepsInv(BEGIN, actions);
    var end := After(BEGIN, actions);
    ReloadedPage(end.record);
    ReloadingIsARun(end);
  }

  // ---------- a page that misses a line ----------

  function Lines(n: nat): (lines: seq<Event>)
    ensures |lines| == n && forall i :: 0 <= i < n ==> lines[i] == Event(i + 2, false, "")
  {
    if n == 0 then [] else Lines(n - 1) + [Event(n + 1, false, "")]
  }

  /** One phase and then empty output lines. */
  function Chatter(n: nat): seq<Event> {
    [Event(1, true, "")] + Lines(n)
  }

  function Chat(n: nat): seq<Action> {
    if n == 0 then [Appending(true, "")] else Chat(n - 1) + [Appending(false, "")]
  }

  function Chatted(n: nat): System {
    System(Record(Chatter(n), 0, false), [], START, [])
  }

  lemma {:induction false} EmptyTexts(events: seq<Event>)
    requires forall e :: e in events ==> e.text == ""
    ensures TextBytes(events) == 0
    decreases |events|
  {
    if events != [] {
      assert events[0] in events && forall e :: e in events[1..] ==> e in events;
      EmptyTexts(events[1..]);
    }
  }

  lemma ChatterIs(n: nat)
    ensures Numbered(Chatter(n)) && Kept(Chatter(n), 0) == Chatter(n) && TextBytes(Chatter(n)) == 0
  {
    AllKept(Chatter(n), 0);
    EmptyTexts(Chatter(n));
  }

  lemma EmptyEntry(r: Record, phaseEvent: bool)
    ensures Entry(r, phaseEvent, "") == Event(|r.log| + 1, phaseEvent, "") && !TooLong("")
  {
    assert Cleaned("") == "" && Cut("", MAX_DISPLAY_ENTRY_BYTES) == "";
  }

  lemma ChatterGrows(n: nat)
    ensures Kept(Chatter(n), 0) + [Event(n + 2, false, "")] == Chatter(n + 1)
  {
    ChatterIs(n);
    Regroup([Event(1, true, "")], Lines(n), [Event(n + 2, false, "")]);
  }

  lemma OneLine(n: nat)
    requires n + 1 < MAX_RETAINED_EVENTS
    ensures Next(Chatted(n), Appending(false, "")) == Chatted(n + 1)
  {
    var r := Chatted(n).record;
    EmptyEntry(r, false);
    ChatterGrows(n);
    ChatterIs(n);
    ChatterIs(n + 1);
    assert !MustTrim(Chatter(n + 1));
    assert Extended(r, Event(n + 2, false, "")) == Record(Chatter(n + 1), 0, false);
  }

  lemma {:induction false} AfterOneMore(sys: System, actions: seq<Action>, a: Action)
    requires Allowed(sys, actions) && Enabled(After(sys, actions), a)
    ensures Allowed(sys, actions + [a]) && After(sys, actions + [a]) == Next(After(sys, actions), a)
    decreases |actions|
  {
    var more := actions + [a];
    if actions == [] {
      assert more[0] == a && more[1..] == [];
    } else {
      assert more[0] == actions[0] && more[1..] == actions[1..] + [a];
      AfterOneMore(Next(sys, actions[0]), actions[1..], a);
    }
  }

  lemma {:induction false} ManyLines(n: nat)
    requires n < MAX_RETAINED_EVENTS
    ensures Allowed(BEGIN, Chat(n)) && After(BEGIN, Chat(n)) == Chatted(n)
  {
    if n == 0 {
      EmptyEntry(NEW_RECORD, true);
      EmptyTexts([Event(1, true, "")]);
      assert [Event(1, true, "")] + [] == [Event(1, true, "")] == [] + [Event(1, true, "")];
      assert [Appending(true, "")][1..] == [];
    } else {
      ManyLines(n - 1);
      OneLine(n - 1);
      AfterOneMore(BEGIN, Chat(n - 1), Appending(false, ""));
    }
  }

  /** One line more than fits beside the phase: the first line goes. */
  lemma TheFirstLineGoes(n: nat)
    requires n + 1 == MAX_RETAINED_EVENTS
    ensures Next(Chatted(n), Appending(false, "")) == System(Record(Chatter(n + 1), 2, true), [], START, [])
  {
    EmptyEntry(Chatted(n).record, false);
    ChatterGrows(n);
    ChatterIs(n);
    TrimsFirst(n + 1);
  }

  lemma TrimsFirst(n: nat)
    requires n == MAX_RETAINED_EVENTS
    ensures MustTrim(Chatter(n)) && RaisedFloor(Chatter(n), 0) == 2
  {
    var events := Chatter(n);
    assert !events[1].phaseEvent && FirstOutput(events) == 1;
    var rest := WithoutAt(events, 1);
    EmptyTexts(rest);
    assert RaisedFloor(rest, 2) == 2;
  }

  lemma {:induction false} OnlyAll(events: seq<Event>)
    requires forall e :: e in events ==> !e.phaseEvent
    ensures Only(events, false) == events
    decreases |events|
  {
    if events != [] {
      assert events[0] in events && forall e :: e in events[1..] ==> e in events;
      OnlyAll(events[1..]);
      assert events == [events[0]] + events[1..];
    }
  }

  lemma OneLineIsDropped(n: nat)
    requires n > 0
    ensures Dropped(Chatter(n), 2) != [] && |Only(Kept(Chatter(n), 2), false)| < n
  {
    var log := Chatter(n);
    ChatterIs(n);
    DroppedAre(log, 2);
    assert log[1] in log && log[1] in Dropped(log, 2);
    NumberedIncreases(log);
    KeptOutputs(log, 2);
    assert log[1..] == Lines(n);
    OnlyAll(Lines(n));
  }

  lemma TooManyLines(n: nat)
    requires n + 1 == MAX_RETAINED_EVENTS
    ensures Allowed(BEGIN, Chat(n + 1))
    ensures After(BEGIN, Chat(n + 1)) == System(Record(Chatter(n + 1), 2, true), [], START, [])
  {
    ManyLines(n);
    TheFirstLineGoes(n);
    AfterOneMore(BEGIN, Chat(n), Appending(false, ""));
  }

  lemma AfterPolling(sys: System, actions: seq<Action>)
    requires Allowed(sys, actions)
    requires var end := After(sys, actions); end == System(end.record, [], START, [])
    ensures var polled := actions + [Answering(0)] + [Delivering(0)];
      Allowed(sys, polled) && After(sys, polled) == Reloaded(After(sys, actions).record)
  {
    AfterOneMore(sys, actions, Answering(0));
    AfterOneMore(sys, actions + [Answering(0)], Delivering(0));
  }

  lemma OutOfStep(n: nat, r: Record)
    requires n == MAX_RETAINED_EVENTS && r == Record(Chatter(n), 2, true)
    ensures !InStep(r.log, Reloaded(r).page)
  {
    OneLineIsDropped(n);
    ChatterIs(n);
    ReloadedPage(r);
  }

  /** A phase and 512 lines before the page first asks: it gets 511 of the lines, and is out of step. */
  lemma MissedLine(n: nat)
    requires n + 1 == MAX_RETAINED_EVENTS
    ensures var actions := Chat(n + 1) + [Answering(0)] + [Delivering(0)];
      Allowed(BEGIN, actions) && !InStep(After(BEGIN, actions).record.log, After(BEGIN, actions).page)
  {
    TooManyLines(n);
    AfterPolling(BEGIN, Chat(n + 1));
    OutOfStep(n + 1, Record(Chatter(n + 1), 2, true));
  }
}
