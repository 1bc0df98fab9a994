/**
 The transcript of a server job in the admin page: overlapping, repeated or late snapshots of a
 numbered event log are merged, and only the last lines are kept.
 */
module Transcript {
  import opened Basics
  import opened EventLog

  const TRANSCRIPT_LIMIT: nat := 512

  const PHASE_EVENT_LIMIT: nat := 64

  const MAX_SAFE_INTEGER: int := 0x1F_FFFF_FFFF_FFFF

  predicate Safe(n: int) {
    -MAX_SAFE_INTEGER <= n <= MAX_SAFE_INTEGER
  }

  datatype Progress = Progress(cursor: int, phases: seq<Event>, transcript: seq<Event>, truncated: bool)

  // ---------- the merge, as a function ----------

  function InsertByNumber(e: Event, events: seq<Event>): seq<Event>
    decreases |events|
  {
    if events == [] || e.number <= events[0].number then [e] + events
    else [events[0]] + InsertByNumber(e, events[1..])
  }

  /** The stable sort by number. */
  function ByNumber(events: seq<Event>): seq<Event>
    decreases |events|
  {
    if events == [] then [] else InsertByNumber(events[0], ByNumber(events[1..]))
  }

  predicate Acceptable(e: Event, cursor: int, seen: set<int>) {
    Safe(e.number) && e.number > cursor && e.number !in seen
  }

  /** The events that count: new ones, the first of each number. */
  function Accepted(events: seq<Event>, cursor: int, seen: set<int>): seq<Event>
    decreases |events|
  {
    if events == [] then []
    else if Acceptable(events[0], cursor, seen) then
      [events[0]] + Accepted(events[1..], cursor, seen + {events[0].number})
    else Accepted(events[1..], cursor, seen)
  }

  function News(p: Progress, s: Snapshot): seq<Event> {
    Accepted(ByNumber(s.events), p.cursor, {})
  }

  function Only(events: seq<Event>, phaseEvent: bool): seq<Event>
    decreases |events|
  {
    if events == [] then []
    else if events[0].phaseEvent == phaseEvent then [events[0]] + Only(events[1..], phaseEvent)
    else Only(events[1..], phaseEvent)
  }

  function LastOf<T>(n: nat, s: seq<T>): seq<T> {
    if |s| > n then s[|s| - n..] else s
  }

  function MovedCursor(cursor: int, next: int): int {
    if Safe(next) && next > cursor then next else cursor
  }

  function Applied(p: Progress, s: Snapshot): Progress {
    var transcript := p.transcript + Only(News(p, s), false);
    Progress(MovedCursor(p.cursor, s.next),
             LastOf(PHASE_EVENT_LIMIT, p.phases + Only(News(p, s), true)),
             LastOf(TRANSCRIPT_LIMIT, transcript),
             p.truncated || s.truncated || |transcript| > TRANSCRIPT_LIMIT)
  }

  // ---------- the merge, as it runs ----------

  class ImportJob {
    var cursor: int
    var phases: seq<Event>
    var transcript: seq<Event>
    var truncated: bool

    ghost function View(): Progress
      reads this
    {
      Progress(cursor, phases, transcript, truncated)
    }

    /** The loop over the sorted events: each new number is appended once, to its own list. */
    method Append(events: seq<Event>) returns (newPhases: seq<Event>, newTranscript: seq<Event>)
      ensures newPhases == phases + Only(Accepted(events, cursor, {}), true)
      ensures newTranscript == transcript + Only(Accepted(events, cursor, {}), false)
    {
      var incoming: set<int> := {};
      newPhases, newTranscript := phases, transcript;
      for i := 0 to |events|
        invariant newTranscript + Only(Accepted(events[i..], cursor, incoming), false)
               == transcript + Only(Accepted(events, cursor, {}), false)
        invariant newPhases + Only(Accepted(events[i..], cursor, incoming), true)
               == phases + Only(Accepted(events, cursor, {}), true)
      {
        var e := events[i];
        assert events[i..][1..] == events[i + 1..];
        if !Safe(e.number) || e.number <= cursor || e.number in incoming {
          continue;
        }
        incoming := incoming + {e.number};
        if e.phaseEvent {
          newPhases := newPhases + [e];
        } else {
          newTranscript := newTranscript + [e];
        }
      }
    }

    method ApplySnapshot(s: Snapshot)
      modifies this
      ensures View() == Applied(old(View()), s)
    {
      var newPhases, newTranscript := Append(ByNumber(s.events));
      var browserTruncated := false;
      if |newTranscript| > TRANSCRIPT_LIMIT {
        newTranscript := newTranscript[|newTranscript| - TRANSCRIPT_LIMIT..];
        browserTruncated := true;
      }
      if |newPhases| > PHASE_EVENT_LIMIT {
        newPhases := newPhases[|newPhases| - PHASE_EVENT_LIMIT..];
      }
      cursor := if Safe(s.next) && s.next > cursor then s.next else cursor;
      phases, transcript := newPhases, newTranscript;
      truncated := truncated || s.truncated || browserTruncated;
    }
  }

  // ---------- what the merge means ----------

  ghost predicate Sorted(events: seq<Event>) {
    forall i, j :: 0 <= i < j < |events| ==> events[i].number <= events[j].number
  }

  lemma {:induction false} InsertSorts(e: Event, events: seq<Event>)
    requires Sorted(events)
    ensures Sorted(InsertByNumber(e, events))
    ensures forall x :: x in InsertByNumber(e, events) <==> x == e || x in events
    decreases |events|
  {
    if events != [] && e.number > events[0].number {
      InsertSorts(e, events[1..]);
      var tail := InsertByNumber(e, events[1..]);
      forall j | 0 <= j < |tail| ensures events[0].number <= tail[j].number {
        assert tail[j] in tail;
      }
      assert events == [events[0]] + events[1..];
    }
  }

  lemma {:induction false} ByNumberSorts(events: seq<Event>)
    ensures Sorted(ByNumber(events))
    ensures forall x :: x in ByNumber(events) <==> x in events
    decreases |events|
  {
    if events != [] {
      ByNumberSorts(events[1..]);
      InsertSorts(events[0], ByNumber(events[1..]));
      assert events == [events[0]] + events[1..];
    }
  }

  lemma {:induction false} AcceptedAreNew(events: seq<Event>, cursor: int, seen: set<int>)
    ensures forall e :: e in Accepted(events, cursor, seen) ==> e in events && Acceptable(e, cursor, seen)
    decreases |events|
  {
    if events != [] {
      var first, rest := events[0], events[1..];
      assert events == [first] + rest;
      if Acceptable(first, cursor, seen) {
        AcceptedAreNew(rest, cursor, seen + {first.number});
        assert forall e :: Acceptable(e, cursor, seen + {first.number}) ==> Acceptable(e, cursor, seen);
      } else {
        AcceptedAreNew(rest, cursor, seen);
      }
    }
  }

  /** Of sorted events the accepted ones are strictly increasing. */
  lemma {:induction false} AcceptedIncrease(events: seq<Event>, cursor: int, seen: set<int>)
    requires Sorted(events)
    ensures Increasing(Accepted(events, cursor, seen))
    decreases |events|
  {
    if events != [] {
      var first, rest := events[0], events[1..];
      assert forall i :: 0 <= i < |rest| ==> rest[i] == events[i + 1];
      if Acceptable(first, cursor, seen) {
        var a := Accepted(rest, cursor, seen + {first.number});
        AcceptedIncrease(rest, cursor, seen + {first.number});
        AcceptedAreNew(rest, cursor, seen + {first.number});
        PutInFront(first, a);
      } else {
        AcceptedIncrease(rest, cursor, seen);
      }
    }
  }

  /** No new number is missed. */
  lemma {:induction false} AcceptedCover(events: seq<Event>, cursor: int, seen: set<int>, e: Event)
    requires e in events && Acceptable(e, cursor, seen)
    ensures exists x :: x in Accepted(events, cursor, seen) && x.number == e.number
    decreases |events|
  {
    var first, rest := events[0], events[1..];
    assert events == [first] + rest;
    if Acceptable(first, cursor, seen) {
      assert first in Accepted(events, cursor, seen);
      if e.number != first.number {
        AcceptedCover(rest, cursor, seen + {first.number}, e);
      }
    } else {
      AcceptedCover(rest, cursor, seen, e);
    }
  }

  lemma NewsMeans(p: Progress, s: Snapshot)
    ensures Increasing(News(p, s))
    ensures forall e :: e in News(p, s) ==> e in s.events && Safe(e.number) && e.number > p.cursor
    ensures forall e :: e in s.events && Safe(e.number) && e.number > p.cursor ==>
      exists x :: x in News(p, s) && x.number == e.number
  {
    ByNumberSorts(s.events);
    AcceptedIncrease(ByNumber(s.events), p.cursor, {});
    AcceptedAreNew(ByNumber(s.events), p.cursor, {});
    forall e | e in s.events && Safe(e.number) && e.number > p.cursor
      ensures exists x :: x in News(p, s) && x.number == e.number
    {
      AcceptedCover(ByNumber(s.events), p.cursor, {}, e);
    }
  }

  lemma {:induction false} OnlyHas(events: seq<Event>, phaseEvent: bool)
    ensures forall e :: e in Only(events, phaseEvent) <==> e in events && e.phaseEvent == phaseEvent
    decreases |events|
  {
    if events != [] {
      OnlyHas(events[1..], phaseEvent);
      assert events == [events[0]] + events[1..];
    }
  }

  lemma {:induction false} OnlyIncreases(events: seq<Event>, phaseEvent: bool)
    requires Increasing(events)
    ensures Increasing(Only(events, phaseEvent))
    decreases |events|
  {
    if events != [] {
      FirstIsLeast(events);
      OnlyIncreases(events[1..], phaseEvent);
      OnlyHas(events[1..], phaseEvent);
      PutInFront(events[0], Only(events[1..], phaseEvent));
    }
  }

  // ---------- every sequence of snapshots ----------

  const START := Progress(0, [], [], false)

  /** The page after some snapshots. */
  function AfterAll(p: Progress, snapshots: seq<Snapshot>): Progress
    decreases |snapshots|
  {
    if snapshots == [] then p else AfterAll(Applied(p, snapshots[0]), snapshots[1..])
  }

  /** All output events accepted on the way, in the order of their acceptance. */
  function History(p: Progress, snapshots: seq<Snapshot>): seq<Event>
    decreases |snapshots|
  {
    if snapshots == [] then []
    else Only(News(p, snapshots[0]), false) + History(Applied(p, snapshots[0]), snapshots[1..])
  }

  /** A snapshot says honestly how far its log goes. */
  predicate Honest(s: Snapshot) {
    Safe(s.next) && forall e :: e in s.events && Safe(e.number) ==> e.number <= s.next
  }

  ghost predicate UpTo(events: seq<Event>, cursor: int) {
    Increasing(events) && forall e :: e in events ==> e.number <= cursor
  }

  lemma Appending(a: seq<Event>, b: seq<Event>, cursor: int, next: int)
    requires UpTo(a, cursor) && Increasing(b) && forall e :: e in b ==> cursor < e.number <= next
    ensures UpTo(a + b, MovedCursor(cursor, next)) || !Safe(next)
  {
    forall i, j | 0 <= i < j < |a + b| ensures (a + b)[i].number < (a + b)[j].number {
      assert i < |a| ==> a[i] in a;
      assert j >= |a| ==> b[j - |a|] in b;
    }
  }

  lemma {:induction false} LastOfLast<T>(n: nat, a: seq<T>, b: seq<T>)
    ensures LastOf(n, LastOf(n, a) + b) == LastOf(n, a + b)
  {
  }

  lemma {:induction false} HistoryIsKept(p: Progress, before: seq<Event>, snapshots: seq<Snapshot>)
    requires (forall s :: s in snapshots ==> Honest(s)) && UpTo(before, p.cursor)
    requires p.transcript == LastOf(TRANSCRIPT_LIMIT, before)
    ensures var all := before + History(p, snapshots);
      && UpTo(all, AfterAll(p, snapshots).cursor)
      && AfterAll(p, snapshots).transcript == LastOf(TRANSCRIPT_LIMIT, all)
    decreases |snapshots|
  {
    if snapshots == [] {
      assert before + [] == before;
    } else {
      var s := snapshots[0];
      assert s in snapshots;
      var news := Only(News(p, s), false);
      NewsMeans(p, s);
      OnlyHas(News(p, s), false);
      OnlyIncreases(News(p, s), false);
      Appending(before, news, p.cursor, s.next);
      LastOfLast(TRANSCRIPT_LIMIT, before, news);
      HistoryIsKept(Applied(p, s), before + news, snapshots[1..]);
      Regroup(before, news, History(Applied(p, s), snapshots[1..]));
    }
  }

  lemma LastIncreases(n: nat, events: seq<Event>)
    requires Increasing(events)
    ensures Increasing(LastOf(n, events))
  {
  }

  lemma HistoryFromNothing(p: Progress, snapshots: seq<Snapshot>)
    requires (forall s :: s in snapshots ==> Honest(s)) && p.transcript == []
    ensures Increasing(History(p, snapshots))
    ensures AfterAll(p, snapshots).transcript == LastOf(TRANSCRIPT_LIMIT, History(p, snapshots))
  {
    HistoryIsKept(p, [], snapshots);
    assert [] + History(p, snapshots) == History(p, snapshots);
  }

  /**
   Over any honest snapshots, repeated, overlapping or late: the accepted output events are strictly
   increasing, so none repeats, and the transcript is the last 512 of them.
   */
  lemma TranscriptIsTheLastOfHistory(snapshots: seq<Snapshot>)
    requires forall s :: s in snapshots ==> Honest(s)
    ensures Increasing(History(START, snapshots)) && Increasing(AfterAll(START, snapshots).transcript)
    ensures AfterAll(START, snapshots).transcript == LastOf(TRANSCRIPT_LIMIT, History(START, snapshots))
  {
    HistoryFromNothing(START, snapshots);
    LastIncreases(TRANSCRIPT_LIMIT, History(START, snapshots));
  }

  /** Exactly when nothing it carries is beyond the new cursor does a repeated snapshot add nothing. */
  lemma WhenRepeatingIsHarmless(p: Progress, s: Snapshot)
    ensures News(Applied(p, s), s) == [] <==>
            forall e :: e in s.events && Safe(e.number) ==> e.number <= MovedCursor(p.cursor, s.next)
  {
    var next := Applied(p, s);
    NewsMeans(next, s);
    if News(next, s) != [] {
      assert News(next, s)[0] in News(next, s);
    }
  }

  // ---------- following a server log ----------

  /** A log whose numbers the page can represent. */
  ghost predicate Log(log: seq<Event>) {
    |log| <= MAX_SAFE_INTEGER && Numbered(log)
  }

  /** A snapshot of the log after number `from`, taken when the lines up to `floor` had been dropped. */
  datatype Piece = Piece(snapshot: Snapshot, from: int, floor: int) {
    /** It carries what was kept, in any order, and was asked for no later than where the page is. */
    ghost predicate Of(log: seq<Event>, cursor: int) {
      0 <= from <= snapshot.next <= |log| && (from <= cursor || snapshot.next <= cursor) &&
      ByNumber(snapshot.events) == Kept(log[from..snapshot.next], floor)
    }
  }

  /** Events up to the cursor are passed over. */
  lemma {:induction false} AcceptedSkips(passed: seq<Event>, rest: seq<Event>, cursor: int, seen: set<int>)
    requires forall e :: e in passed ==> e.number <= cursor
    ensures Accepted(passed + rest, cursor, seen) == Accepted(rest, cursor, seen)
    decreases |passed|
  {
    if passed == [] {
      assert passed + rest == rest;
    } else {
      assert passed[0] in passed && forall e :: e in passed[1..] ==> e in passed;
      assert (passed + rest)[1..] == passed[1..] + rest;
      AcceptedSkips(passed[1..], rest, cursor, seen);
    }
  }

  /** New events with increasing numbers are all accepted. */
  lemma {:induction false} AcceptedAll(events: seq<Event>, cursor: int, seen: set<int>)
    requires Increasing(events) && forall e :: e in events ==> Acceptable(e, cursor, seen)
    ensures Accepted(events, cursor, seen) == events
    decreases |events|
  {
    if events != [] {
      var first, rest := events[0], events[1..];
      assert events == [first] + rest;
      FirstIsLeast(events);
      assert forall e :: e in rest ==> e in events;
      AcceptedAll(rest, cursor, seen + {first.number});
    }
  }

  lemma AcceptedOfTwo(passed: seq<Event>, unseen: seq<Event>, cursor: int, floor: int)
    requires forall e :: e in passed ==> e.number <= cursor
    requires Increasing(unseen) && forall e :: e in unseen ==> Acceptable(e, cursor, {})
    ensures Accepted(Kept(passed + unseen, floor), cursor, {}) == Kept(unseen, floor)
  {
    KeptConcat(passed, unseen, floor);
    KeptHas(passed, floor);
    KeptHas(unseen, floor);
    KeptIncreases(unseen, floor);
    AcceptedSkips(Kept(passed, floor), Kept(unseen, floor), cursor, {});
    AcceptedAll(Kept(unseen, floor), cursor, {});
  }

  lemma AcceptedOfSlice(log: seq<Event>, from: int, middle: int, end: int, cursor: int, floor: int)
    requires Log(log) && 0 <= cursor && 0 <= from <= middle <= end <= |log|
    requires (middle == from || middle <= cursor) && (middle == end || cursor <= middle)
    ensures Accepted(Kept(log[from..end], floor), cursor, {}) == Kept(log[middle..end], floor)
  {
    SliceIncreases(log, from, middle);
    SliceIncreases(log, middle, end);
    AcceptedOfTwo(log[from..middle], log[middle..end], cursor, floor);
    assert log[from..end] == log[from..middle] + log[middle..end];
  }

  /** What a piece brings is exactly what was kept of the log between the old cursor and the new one. */
  lemma NewsOfPiece(log: seq<Event>, p: Progress, piece: Piece)
    requires Log(log) && 0 <= p.cursor <= |log| && piece.Of(log, p.cursor)
    ensures var c := MovedCursor(p.cursor, piece.snapshot.next);
      && p.cursor <= c <= |log| && c == Later(p.cursor, piece.snapshot.next)
      && News(p, piece.snapshot) == Kept(log[p.cursor..c], piece.floor)
  {
    var next := piece.snapshot.next;
    if next <= p.cursor {
      AcceptedOfSlice(log, piece.from, next, next, p.cursor, piece.floor);
      assert log[next..next] == log[p.cursor..p.cursor];
    } else {
      AcceptedOfSlice(log, piece.from, p.cursor, next, p.cursor, piece.floor);
    }
  }

  lemma {:induction false} OnlyConcat(a: seq<Event>, b: seq<Event>, phaseEvent: bool)
    ensures Only(a + b, phaseEvent) == Only(a, phaseEvent) + Only(b, phaseEvent)
    decreases |a|
  {
    if a == [] {
      assert a + b == b;
    } else {
      assert (a + b)[1..] == a[1..] + b;
      OnlyConcat(a[1..], b, phaseEvent);
    }
  }

  lemma OnlyUpTo(log: seq<Event>, from: int, end: int, phaseEvent: bool)
    requires 0 <= from <= end <= |log|
    ensures Only(log[..end], phaseEvent) == Only(log[..from], phaseEvent) + Only(log[from..end], phaseEvent)
  {
    assert log[..end] == log[..from] + log[from..end];
    OnlyConcat(log[..from], log[from..end], phaseEvent);
  }

  lemma OnlyCons(e: Event, rest: seq<Event>, phaseEvent: bool)
    ensures Only([e] + rest, phaseEvent) == (if e.phaseEvent == phaseEvent then [e] else []) + Only(rest, phaseEvent)
  {
    assert ([e] + rest)[1..] == rest;
  }

  /** Phases are never dropped. */
  lemma {:induction false} KeptPhases(events: seq<Event>, floor: int)
    ensures Only(Kept(events, floor), true) == Only(events, true)
    decreases |events|
  {
    if events != [] {
      KeptPhases(events[1..], floor);
      OnlyCons(events[0], Kept(events[1..], floor), true);
    }
  }

  /** Of increasing events the dropped output lines come before the kept ones. */
  lemma {:induction false} KeptOutputs(events: seq<Event>, floor: int)
    requires Increasing(events)
    ensures Only(events, false) == Dropped(events, floor) + Only(Kept(events, floor), false)
    decreases |events|
  {
    if events != [] {
      var e, rest := events[0], events[1..];
      FirstIsLeast(events);
      if e.phaseEvent {
        KeptOutputs(rest, floor);
        OnlyCons(e, Kept(rest, floor), false);
      } else if e.number > floor {
        assert events == [e] + rest;
        AllKept(events, floor);
      } else {
        KeptOutputs(rest, floor);
        Regroup([e], Dropped(rest, floor), Only(Kept(rest, floor), false));
      }
    }
  }

  /** The page is in step with the log: its phases and its transcript are the last ones up to the cursor. */
  ghost predicate PhasesInStep(log: seq<Event>, p: Progress) {
    0 <= p.cursor <= |log| && p.phases == LastOf(PHASE_EVENT_LIMIT, Only(log[..p.cursor], true))
  }

  ghost predicate InStep(log: seq<Event>, p: Progress) {
    0 <= p.cursor <= |log| && p.transcript == LastOf(TRANSCRIPT_LIMIT, Only(log[..p.cursor], false))
  }

  /** The output lines a piece skips because the server dropped them before the page had seen them. */
  function Missed(log: seq<Event>, p: Progress, piece: Piece): seq<Event>
    requires 0 <= p.cursor <= |log| && piece.snapshot.next <= |log|
  {
    Dropped(log[p.cursor..Later(p.cursor, piece.snapshot.next)], piece.floor)
  }

  /** Phases stay in step whatever the server has dropped, repeated or reordered. */
  lemma PhasesFollowTheLog(log: seq<Event>, p: Progress, piece: Piece)
    requires Log(log) && PhasesInStep(log, p) && piece.Of(log, p.cursor)
    ensures PhasesInStep(log, Applied(p, piece.snapshot))
  {
    NewsOfPiece(log, p, piece);
    var c := Later(p.cursor, piece.snapshot.next);
    KeptPhases(log[p.cursor..c], piece.floor);
    OnlyUpTo(log, p.cursor, c, true);
    LastOfLast(PHASE_EVENT_LIMIT, Only(log[..p.cursor], true), Only(log[p.cursor..c], true));
  }

  lemma LastOfLong<T>(n: nat, a: seq<T>, b: seq<T>)
    requires |b| >= n
    ensures LastOf(n, a + b) == LastOf(n, b)
  {
  }

  /** Each piece is seen from where the page is when it arrives. */
  ghost predicate AllPieces(log: seq<Event>, p: Progress, pieces: seq<Piece>)
    decreases |pieces|
  {
    pieces == [] || (pieces[0].Of(log, p.cursor) && AllPieces(log, Applied(p, pieces[0].snapshot), pieces[1..]))
  }

  function Following(p: Progress, pieces: seq<Piece>): Progress
    decreases |pieces|
  {
    if pieces == [] then p else Following(Applied(p, pieces[0].snapshot), pieces[1..])
  }

  /** The part of the log that reaches the page: all of it but the lines dropped before it came to them. */
  ghost function Received(log: seq<Event>, p: Progress, pieces: seq<Piece>): seq<Event>
    requires Log(log) && 0 <= p.cursor <= |log| && AllPieces(log, p, pieces)
    decreases |pieces|
  {
    if pieces == [] then []
    else
      NewsOfPiece(log, p, pieces[0]);
      Kept(log[p.cursor..Later(p.cursor, pieces[0].snapshot.next)], pieces[0].floor) +
      Received(log, Applied(p, pieces[0].snapshot), pieces[1..])
  }

  /** The gap after one more piece. */
  function GapAfter(gap: Option<nat>, missed: seq<Event>, news: seq<Event>): Option<nat> {
    if missed != [] then Some(|news|) else if gap.None? then None else Some(gap.value + |news|)
  }

  /**
   How many output lines the page has received since the last piece that missed one, that piece included;
   `gap` is that number before these pieces.
   */
  ghost function Gap(log: seq<Event>, p: Progress, pieces: seq<Piece>, gap: Option<nat>): Option<nat>
    requires Log(log) && 0 <= p.cursor <= |log| && AllPieces(log, p, pieces)
    decreases |pieces|
  {
    if pieces == [] then gap
    else
      NewsOfPiece(log, p, pieces[0]);
      var after := GapAfter(gap, Missed(log, p, pieces[0]), Only(News(p, pieces[0].snapshot), false));
      Gap(log, Applied(p, pieces[0].snapshot), pieces[1..], after)
  }

  /** No line was missed, or a full transcript of later ones has come. */
  predicate Filled(gap: Option<nat>) {
    gap.None? || gap.value >= TRANSCRIPT_LIMIT
  }

  lemma {:induction false} FollowingPhases(log: seq<Event>, p: Progress, pieces: seq<Piece>)
    requires Log(log) && PhasesInStep(log, p) && AllPieces(log, p, pieces)
    ensures PhasesInStep(log, Following(p, pieces))
    decreases |pieces|
  {
    if pieces != [] {
      PhasesFollowTheLog(log, p, pieces[0]);
      FollowingPhases(log, Applied(p, pieces[0].snapshot), pieces[1..]);
    }
  }

  /** Two texts that are equal or, after a gap, agree on their last entries and on no more. */
  ghost predicate Agree<T>(received: seq<T>, all: seq<T>, gap: Option<nat>) {
    match gap
    case None => received == all
    case Some(n) =>
      n <= |received| && n < |all| && received[|received| - n..] == all[|all| - n..] &&
      all[|all| - n - 1] !in received[..|received| - n]
  }

  /** The gap shows in the last `k` entries unless so many follow it. */
  lemma GapShows<T>(k: nat, received: seq<T>, all: seq<T>, gap: Option<nat>)
    requires Agree(received, all, gap)
    ensures LastOf(k, received) == LastOf(k, all) <==> gap.None? || gap.value >= k
  {
    if gap.Some? {
      var n := gap.value;
      if n >= k {
        assert received == received[..|received| - n] + received[|received| - n..];
        assert all == all[..|all| - n] + all[|all| - n..];
        LastOfLong(k, received[..|received| - n], received[|received| - n..]);
        LastOfLong(k, all[..|all| - n], all[|all| - n..]);
      } else {
        var r, a := LastOf(k, received), LastOf(k, all);
        assert a[|a| - n - 1] == all[|all| - n - 1];
        if |r| == |a| {
          var before := received[..|received| - n];
          assert r[|r| - n - 1] == before[|before| - 1];
        }
      }
    }
  }

  lemma AgreeLonger<T>(received: seq<T>, all: seq<T>, gap: Option<nat>, news: seq<T>)
    requires Agree(received, all, gap)
    ensures Agree(received + news, all + news, if gap.None? then None else Some(gap.value + |news|))
  {
    if gap.Some? {
      var n, r, a := gap.value, received + news, all + news;
      assert r[..|r| - n - |news|] == received[..|received| - n];
      assert r[|r| - n - |news|..] == received[|received| - n..] + news;
      assert a[|a| - n - |news|..] == all[|all| - n..] + news;
    }
  }

  lemma AgreeAfterGap<T>(received: seq<T>, all: seq<T>, missed: seq<T>, news: seq<T>)
    requires missed != [] && missed[|missed| - 1] !in received
    ensures Agree(received + news, all + missed + news, Some(|news|))
  {
    var r, a := received + news, all + missed + news;
    assert r[..|r| - |news|] == received && r[|r| - |news|..] == news && a[|a| - |news|..] == news;
    assert a[|a| - |news| - 1] == missed[|missed| - 1];
  }

  /** What the page has received is older than its cursor and agrees with the log but for the gap. */
  ghost predicate ReceivedUpTo(log: seq<Event>, p: Progress, received: seq<Event>, gap: Option<nat>)
    requires 0 <= p.cursor <= |log|
  {
    p.transcript == LastOf(TRANSCRIPT_LIMIT, received) && (forall e :: e in received ==> e.number <= p.cursor) &&
    Agree(received, Only(log[..p.cursor], false), gap)
  }

  /** The output lines of a slice: the missed ones, and then those that come. */
  lemma SliceOutputs(log: seq<Event>, from: int, end: int, floor: int)
    requires Log(log) && 0 <= from <= end <= |log|
    ensures var missed, news := Dropped(log[from..end], floor), Only(Kept(log[from..end], floor), false);
      && Only(log[..end], false) == Only(log[..from], false) + missed + news
      && (forall e :: e in missed ==> e.number > from) && (forall e :: e in news ==> e.number <= end)
  {
    var slice := log[from..end];
    SliceIncreases(log, from, end);
    KeptOutputs(slice, floor);
    OnlyUpTo(log, from, end, false);
    Regroup(Only(log[..from], false), Dropped(slice, floor), Only(Kept(slice, floor), false));
    KeptHas(slice, floor);
    OnlyHas(Kept(slice, floor), false);
    DroppedAre(slice, floor);
  }

  lemma ReceivingOne(log: seq<Event>, p: Progress, piece: Piece, received: seq<Event>, gap: Option<nat>)
    requires Log(log) && 0 <= p.cursor <= |log| && piece.Of(log, p.cursor) && ReceivedUpTo(log, p, received, gap)
    ensures var next, news := Applied(p, piece.snapshot), Only(News(p, piece.snapshot), false);
      && 0 <= next.cursor <= |log|
      && ReceivedUpTo(log, next, received + news, GapAfter(gap, Missed(log, p, piece), news))
  {
    NewsOfPiece(log, p, piece);
    var c, missed := Later(p.cursor, piece.snapshot.next), Missed(log, p, piece);
    var all, news := Only(log[..p.cursor], false), Only(News(p, piece.snapshot), false);
    SliceOutputs(log, p.cursor, c, piece.floor);
    LastOfLast(TRANSCRIPT_LIMIT, received, news);
    if missed == [] {
      assert all + missed == all;
      AgreeLonger(received, all, gap, news);
    } else {
      assert missed[|missed| - 1] in missed;
      AgreeAfterGap(received, all, missed, news);
    }
  }

  /**
   Exactly when a piece misses no output line, or brings a full transcript of later ones, does the
   transcript stay the last 512 output lines of the log up to the cursor.
   */
  lemma WhenTranscriptFollows(log: seq<Event>, p: Progress, piece: Piece)
    requires Log(log) && InStep(log, p) && piece.Of(log, p.cursor)
    ensures var next := Applied(p, piece.snapshot);
      InStep(log, next) <==>
        Missed(log, p, piece) == [] || |Only(News(p, piece.snapshot), false)| >= TRANSCRIPT_LIMIT
  {
    var all := Only(log[..p.cursor], false);
    SliceIncreases(log, 0, p.cursor);
    OnlyHas(log[..p.cursor], false);
    assert log[0..p.cursor] == log[..p.cursor];
    ReceivingOne(log, p, piece, all, None);
    var news := Only(News(p, piece.snapshot), false);
    var next, gap := Applied(p, piece.snapshot), GapAfter(None, Missed(log, p, piece), news);
    GapShows(TRANSCRIPT_LIMIT, all + news, Only(log[..next.cursor], false), gap);
  }

  lemma OutputsOfTwo(received: seq<Event>, first: seq<Event>, rest: seq<Event>)
    ensures received + Only(first + rest, false) == received + Only(first, false) + Only(rest, false)
  {
    OnlyConcat(first, rest, false);
    Regroup(received, Only(first, false), Only(rest, false));
  }

  lemma {:induction false} ReceivingAll(log: seq<Event>, p: Progress, pieces: seq<Piece>, received: seq<Event>,
                                        gap: Option<nat>)
    requires Log(log) && 0 <= p.cursor <= |log| && AllPieces(log, p, pieces) && ReceivedUpTo(log, p, received, gap)
    ensures 0 <= Following(p, pieces).cursor <= |log|
    ensures ReceivedUpTo(log, Following(p, pieces), received + Only(Received(log, p, pieces), false),
                         Gap(log, p, pieces, gap))
    decreases |pieces|
  {
    if pieces == [] {
      assert received + [] == received;
    } else {
      var next, first := Applied(p, pieces[0].snapshot), News(p, pieces[0].snapshot);
      var missed, news := Missed(log, p, pieces[0]), Only(first, false);
      NewsOfPiece(log, p, pieces[0]);
      ReceivingOne(log, p, pieces[0], received, gap);
      ReceivingAll(log, next, pieces[1..], received + news, GapAfter(gap, missed, news));
      OutputsOfTwo(received, first, Received(log, next, pieces[1..]));
    }
  }

  /**
   From the start, pieces of a log that the server trims as it goes: the phases are the last 64 of the log
   up to the furthest piece, the transcript is the last 512 output lines of what was received, and it is
   the last 512 of the log exactly when no line was dropped before the page came to it, or 512 output
   lines have come since the last piece to which that happened, with that piece.
   */
  lemma PiecesReconstructTheLog(log: seq<Event>, pieces: seq<Piece>)
    requires Log(log) && AllPieces(log, START, pieces)
    ensures PhasesInStep(log, Following(START, pieces))
    ensures Following(START, pieces).transcript == LastOf(TRANSCRIPT_LIMIT, Only(Received(log, START, pieces), false))
    ensures InStep(log, Following(START, pieces)) <==> Filled(Gap(log, START, pieces, None))
  {
    assert log[..0] == [];
    FollowingPhases(log, START, pieces);
    ReceivingAll(log, START, pieces, [], None);
    var all := Only(Received(log, START, pieces), false);
    assert [] + all == all;
    GapShows(TRANSCRIPT_LIMIT, all, Only(log[..Following(START, pieces).cursor], false), Gap(log, START, pieces, None));
  }

  // ---------- the mark and the cursor ----------

  /** Some snapshot says that its server has dropped or cut something. */
  predicate SomeMarked(snapshots: seq<Snapshot>) {
    exists i :: 0 <= i < |snapshots| && snapshots[i].truncated
  }

  /** The furthest number any snapshot names that a page can represent. */
  function Furthest(cursor: int, snapshots: seq<Snapshot>): int
    decreases |snapshots|
  {
    if snapshots == [] then cursor
    else if Safe(snapshots[0].next) then Furthest(Later(cursor, snapshots[0].next), snapshots[1..])
    else Furthest(cursor, snapshots[1..])
  }

  lemma {:induction false} MarkFrom(p: Progress, before: seq<Event>, snapshots: seq<Snapshot>)
    requires (forall s :: s in snapshots ==> Honest(s)) && UpTo(before, p.cursor)
    requires p.transcript == LastOf(TRANSCRIPT_LIMIT, before) && (|before| > TRANSCRIPT_LIMIT ==> p.truncated)
    ensures var end, all := AfterAll(p, snapshots), before + History(p, snapshots);
      && end.cursor == Furthest(p.cursor, snapshots)
      && (end.truncated <==> p.truncated || SomeMarked(snapshots) || |all| > TRANSCRIPT_LIMIT)
    decreases |snapshots|
  {
    if snapshots == [] {
      assert before + [] == before;
    } else {
      var s := snapshots[0];
      assert s in snapshots && forall x :: x in snapshots[1..] ==> x in snapshots;
      var news := Only(News(p, s), false);
      NewsMeans(p, s);
      OnlyHas(News(p, s), false);
      OnlyIncreases(News(p, s), false);
      Appending(before, news, p.cursor, s.next);
      LastOfLast(TRANSCRIPT_LIMIT, before, news);
      MarkFrom(Applied(p, s), before + news, snapshots[1..]);
      Regroup(before, news, History(Applied(p, s), snapshots[1..]));
      MarkOne(s, snapshots[1..]);
      assert snapshots == [s] + snapshots[1..];
    }
  }

  lemma MarkOne(s: Snapshot, rest: seq<Snapshot>)
    ensures SomeMarked([s] + rest) <==> s.truncated || SomeMarked(rest)
  {
    var all := [s] + rest;
    if s.truncated {
      assert all[0].truncated;
    }
    if SomeMarked(rest) {
      var i :| 0 <= i < |rest| && rest[i].truncated;
      assert all[i + 1].truncated;
    }
    if SomeMarked(all) {
      var i :| 0 <= i < |all| && all[i].truncated;
      assert i > 0 ==> rest[i - 1].truncated;
    }
  }

  /**
   Over any honest snapshots: the cursor is the furthest number among them, and the page is marked exactly
   when one of them was, or when it has received more output lines than it keeps.
   */
  lemma WhenMarked(snapshots: seq<Snapshot>)
    requires forall s :: s in snapshots ==> Honest(s)
    ensures AfterAll(START, snapshots).cursor == Furthest(0, snapshots)
    ensures AfterAll(START, snapshots).truncated <==>
            SomeMarked(snapshots) || |History(START, snapshots)| > TRANSCRIPT_LIMIT
  {
    MarkFrom(START, [], snapshots);
    assert [] + History(START, snapshots) == History(START, snapshots);
  }
}
