/**
 The event log of a server job: appended events are numbered from 1, and when too many of them are
 kept the oldest output lines are dropped while every phase stays.
 */
module JobLog {
  import opened Basics
  import opened EventLog
  import opened DisplayText

  const MAX_RETAINED_EVENTS: nat := 512

  const MAX_RETAINED_EVENT_TEXT_BYTES: nat := 256 * 1024

  const MAX_DISPLAY_ENTRY_BYTES: nat := 4 * 1024

  const MAX_SEQ: nat := 0xFFFF_FFFF_FFFF_FFFF

  function TextBytes(events: seq<Event>): nat
    decreases |events|
  {
    if events == [] then 0 else Bytes(events[0].text) + TextBytes(events[1..])
  }

  predicate TooMuch(events: seq<Event>) {
    |events| > MAX_RETAINED_EVENTS || TextBytes(events) > MAX_RETAINED_EVENT_TEXT_BYTES
  }

  predicate HasOutput(events: seq<Event>) {
    exists i :: 0 <= i < |events| && !events[i].phaseEvent
  }

  predicate MustTrim(events: seq<Event>) {
    TooMuch(events) && HasOutput(events)
  }

  function FirstOutput(events: seq<Event>): (i: nat)
    requires HasOutput(events)
    ensures i < |events| && !events[i].phaseEvent && forall j :: 0 <= j < i ==> events[j].phaseEvent
    decreases |events|
  {
    if !events[0].phaseEvent then 0
    else
      assert exists i :: 0 <= i < |events[1..]| && !events[1..][i].phaseEvent by {
        var k :| 0 <= k < |events| && !events[k].phaseEvent;
        assert events[1..][k - 1] == events[k];
      }
      1 + FirstOutput(events[1..])
  }

  function WithoutAt(events: seq<Event>, i: nat): seq<Event>
    requires i < |events|
  {
    events[..i] + events[i + 1..]
  }

  /** Output lines go, oldest first, until the limits hold or only phases are left. */
  function Trimmed(events: seq<Event>): seq<Event>
    decreases |events|
  {
    if MustTrim(events) then Trimmed(WithoutAt(events, FirstOutput(events))) else events
  }

  /** The number of the last output line that goes. */
  function RaisedFloor(events: seq<Event>, floor: int): int
    decreases |events|
  {
    if MustTrim(events) then
      RaisedFloor(WithoutAt(events, FirstOutput(events)), events[FirstOutput(events)].number)
    else floor
  }

  // ---------- trimming raises the floor ----------

  lemma {:induction false} TextBytesWithout(events: seq<Event>, i: nat)
    requires i < |events|
    ensures TextBytes(events) == TextBytes(WithoutAt(events, i)) + Bytes(events[i].text)
    decreases i
  {
    if i == 0 {
      assert WithoutAt(events, 0) == events[1..];
    } else {
      TextBytesWithout(events[1..], i - 1);
      assert WithoutAt(events, i)[1..] == WithoutAt(events[1..], i - 1);
    }
  }

  lemma {:induction false} TextBytesAppend(events: seq<Event>, e: Event)
    ensures TextBytes(events + [e]) == TextBytes(events) + Bytes(e.text)
    decreases |events|
  {
    if events == [] {
      assert [e][1..] == [];
      assert events + [e] == [e];
    } else {
      assert (events + [e])[1..] == events[1..] + [e];
      TextBytesAppend(events[1..], e);
    }
  }

  lemma KeptAround(a: seq<Event>, e: Event, b: seq<Event>)
    requires (forall x :: x in a ==> x.phaseEvent) && !e.phaseEvent && forall x :: x in b ==> x.number > e.number
    ensures Kept(a + ([e] + b), e.number) == a + b
  {
    KeptConcat(a, [e] + b, e.number);
    assert ([e] + b)[1..] == b;
    AllKept(a, e.number);
    AllKept(b, e.number);
  }

  lemma IncreasesAfter(events: seq<Event>, i: nat)
    requires Increasing(events) && i < |events|
    ensures forall x :: x in events[i + 1..] ==> x.number > events[i].number
  {
    forall x | x in events[i + 1..] ensures x.number > events[i].number {
      var k :| 0 <= k < |events[i + 1..]| && events[i + 1..][k] == x;
      assert events[i + 1 + k] == x;
    }
  }

  /** Dropping the first output line is keeping what lies above it. */
  lemma WithoutFirstIsKept(events: seq<Event>)
    requires Increasing(events) && HasOutput(events)
    ensures WithoutAt(events, FirstOutput(events)) == Kept(events, events[FirstOutput(events)].number)
  {
    var i := FirstOutput(events);
    IncreasesAfter(events, i);
    KeptAround(events[..i], events[i], events[i + 1..]);
    assert events == events[..i] + ([events[i]] + events[i + 1..]);
  }

  lemma {:induction false} TrimmedIsKept(log: seq<Event>, floor: int)
    requires Numbered(log) && floor <= |log|
    ensures var events := Kept(log, floor);
      && floor <= RaisedFloor(events, floor) <= |log|
      && Trimmed(events) == Kept(log, RaisedFloor(events, floor))
      && (MustTrim(events) <==> Trimmed(events) != events)
    decreases |Kept(log, floor)|
  {
    var events := Kept(log, floor);
    if MustTrim(events) {
      var e := events[FirstOutput(events)];
      NumberedIncreases(log);
      KeptIncreases(log, floor);
      WithoutFirstIsKept(events);
      KeptTwice(log, floor, e.number);
      KeptHas(log, floor);
      assert e in events && e in log;
      TrimmedIsKept(log, e.number);
      TrimmedIsNoLonger(WithoutAt(events, FirstOutput(events)));
    }
  }

  lemma {:induction false} TrimmedIsNoLonger(events: seq<Event>)
    ensures |Trimmed(events)| <= |events|
    decreases |events|
  {
    if MustTrim(events) {
      TrimmedIsNoLonger(WithoutAt(events, FirstOutput(events)));
    }
  }

  lemma {:induction false} TrimmedFits(events: seq<Event>)
    ensures TooMuch(Trimmed(events)) ==> !HasOutput(Trimmed(events))
    decreases |events|
  {
    if MustTrim(events) {
      TrimmedFits(WithoutAt(events, FirstOutput(events)));
    }
  }

  lemma AppendKept(log: seq<Event>, e: Event, floor: int)
    requires floor < e.number
    ensures Kept(log + [e], floor) == Kept(log, floor) + [e]
  {
    KeptConcat(log, [e], floor);
    AllKept([e], floor);
  }

  // ---------- snapshots ----------

  function Above(events: seq<Event>, after: int): seq<Event>
    decreases |events|
  {
    if events == [] then []
    else if events[0].number > after then [events[0]] + Above(events[1..], after)
    else Above(events[1..], after)
  }

  lemma {:induction false} AboveConcat(a: seq<Event>, b: seq<Event>, after: int)
    ensures Above(a + b, after) == Above(a, after) + Above(b, after)
    decreases |a|
  {
    if a == [] {
      assert a + b == b;
    } else {
      assert (a + b)[1..] == a[1..] + b;
      AboveConcat(a[1..], b, after);
    }
  }

  lemma {:induction false} AboveAll(events: seq<Event>, after: int)
    ensures (forall e :: e in events ==> e.number > after) ==> Above(events, after) == events
    ensures (forall e :: e in events ==> e.number <= after) ==> Above(events, after) == []
    decreases |events|
  {
    if events != [] {
      assert events[0] in events && forall e :: e in events[1..] ==> e in events;
      AboveAll(events[1..], after);
      assert events == [events[0]] + events[1..];
    }
  }

  /** What is kept after a number is what is kept of the log after that number. */
  lemma AboveOfKept(log: seq<Event>, floor: int, after: nat)
    requires Numbered(log) && after <= |log|
    ensures Above(Kept(log, floor), after) == Kept(log[after..], floor)
  {
    var passed, unseen := log[..after], log[after..];
    assert log == passed + unseen && log[0..after] == passed && log[after..|log|] == unseen;
    KeptConcat(passed, unseen, floor);
    AboveConcat(Kept(passed, floor), Kept(unseen, floor), after);
    SliceIncreases(log, 0, after);
    SliceIncreases(log, after, |log|);
    KeptHas(passed, floor);
    KeptHas(unseen, floor);
    AboveAll(Kept(passed, floor), after);
    AboveAll(Kept(unseen, floor), after);
  }

  // ---------- a record, as a value ----------

  /** Everything that was ever appended, the number up to which output lines are gone, and the mark for losses. */
  datatype Record = Record(log: seq<Event>, floor: int, truncated: bool) {
    function Events(): seq<Event> {
      Kept(log, floor)
    }

    ghost predicate Valid() {
      Numbered(log) && |log| <= MAX_SEQ && floor <= |log| && (Dropped(log, floor) != [] ==> truncated)
    }
  }

  const NEW_RECORD := Record([], 0, false)

  /** The next entry, cleaned and cut. */
  function Entry(r: Record, phaseEvent: bool, text: string): Event {
    Event(|r.log| + 1, phaseEvent, Cut(Cleaned(text), MAX_DISPLAY_ENTRY_BYTES))
  }

  predicate TooLong(text: string) {
    Bytes(Cleaned(text)) > MAX_DISPLAY_ENTRY_BYTES
  }

  function Extended(r: Record, e: Event): Record {
    var events := r.Events() + [e];
    Record(r.log + [e], RaisedFloor(events, r.floor), r.truncated || MustTrim(events))
  }

  function Appended(r: Record, phaseEvent: bool, text: string): Record {
    if |r.log| >= MAX_SEQ then r.(truncated := true)
    else Extended(r.(truncated := r.truncated || TooLong(text)), Entry(r, phaseEvent, text))
  }

  /** Nothing for a number the log has not reached; otherwise everything kept after it. */
  function SnapshotOf(r: Record, after: nat): Option<Snapshot> {
    if after > |r.log| then None else Some(Snapshot(Above(r.Events(), after), |r.log|, r.truncated))
  }

  lemma ExtendedMeans(r: Record, e: Event)
    requires r.Valid() && |r.log| < MAX_SEQ && e.number == |r.log| + 1
    ensures var r' := Extended(r, e);
      && r'.Valid() && r'.log == r.log + [e] && r.floor <= r'.floor
      && r'.Events() == Trimmed(r.Events() + [e])
      && (r'.truncated <==> r.truncated || r'.Events() != r.Events() + [e])
  {
    AppendKept(r.log, e, r.floor);
    TrimmedIsKept(r.log + [e], r.floor);
    AppendDropped(r.log, e, r.floor);
  }

  /** What an appended event does to the log, to what is kept of it, and to the mark. */
  lemma AppendedMeans(r: Record, phaseEvent: bool, text: string)
    requires r.Valid()
    ensures var r', e := Appended(r, phaseEvent, text), Entry(r, phaseEvent, text);
      && r'.Valid() && r.floor <= r'.floor
      && (|r.log| >= MAX_SEQ ==> r'.log == r.log && r'.Events() == r.Events() && r'.truncated)
      && (|r.log| < MAX_SEQ ==>
            r'.log == r.log + [e] && r'.Events() == Trimmed(r.Events() + [e]) &&
            (TooMuch(r'.Events()) ==> !HasOutput(r'.Events())) &&
            (r'.truncated <==> r.truncated || TooLong(text) || r'.Events() != r.Events() + [e]))
  {
    if |r.log| < MAX_SEQ {
      var e := Entry(r, phaseEvent, text);
      ExtendedMeans(r.(truncated := r.truncated || TooLong(text)), e);
      TrimmedFits(r.Events() + [e]);
    }
  }

  /**
   The limits in numbers: while 512 events and 256 KiB of text are not exceeded nothing is dropped, and
   afterwards they are exceeded only if nothing but phases is left.
   */
  lemma WithinTheLimits(r: Record, phaseEvent: bool, text: string)
    requires r.Valid() && |r.log| < MAX_SEQ
    ensures var e, r' := Entry(r, phaseEvent, text), Appended(r, phaseEvent, text);
      && (|r.Events()| < 512 && TextBytes(r.Events()) + Bytes(e.text) <= 262144 ==> r'.Events() == r.Events() + [e])
      && (|r'.Events()| > 512 || TextBytes(r'.Events()) > 262144 ==>
            forall i :: 0 <= i < |r'.Events()| ==> r'.Events()[i].phaseEvent)
      && Bytes(e.text) <= 4096
  {
    AppendedMeans(r, phaseEvent, text);
    TextBytesAppend(r.Events(), Entry(r, phaseEvent, text));
    CutMeans(Cleaned(text), MAX_DISPLAY_ENTRY_BYTES);
  }

  /** Up to the first output line above a floor nothing more is dropped. */
  lemma LineBelow(log: seq<Event>, floor: int, e: Event)
    requires Numbered(log) && floor < e.number && e in log && !e.phaseEvent
    requires forall x :: x in log && !x.phaseEvent && x.number > floor ==> x.number >= e.number
    ensures Kept(log, e.number - 1) == Kept(log, floor)
  {
    SameKept(log, e.number - 1, floor);
  }

  lemma {:induction false} SameKept(events: seq<Event>, a: int, b: int)
    requires forall x :: x in events ==> (Retained(x, a) <==> Retained(x, b))
    ensures Kept(events, a) == Kept(events, b)
    decreases |events|
  {
    if events != [] {
      assert events[0] in events && forall x :: x in events[1..] ==> x in events;
      SameKept(events[1..], a, b);
    }
  }

  /** The first output line that is kept, and what is kept without it. */
  lemma FirstLine(log: seq<Event>, floor: int)
    requires Numbered(log) && HasOutput(Kept(log, floor))
    ensures var events := Kept(log, floor);
      var e := events[FirstOutput(events)];
      && e in log && !e.phaseEvent && floor < e.number <= |log|
      && WithoutAt(events, FirstOutput(events)) == Kept(log, e.number)
      && Kept(log, e.number - 1) == events
  {
    var events := Kept(log, floor);
    var i := FirstOutput(events);
    var e := events[i];
    NumberedIncreases(log);
    KeptIncreases(log, floor);
    WithoutFirstIsKept(events);
    KeptTwice(log, floor, e.number);
    KeptHas(log, floor);
    assert e in events && e in log;
    forall x | x in log && !x.phaseEvent && x.number > floor ensures x.number >= e.number {
      assert x in events;
      var k :| 0 <= k < |events| && events[k] == x;
      assert k >= i;
    }
    LineBelow(log, floor, e);
  }

  lemma TrimOnce(log: seq<Event>, floor: int, events: seq<Event>) returns (number: int, rest: seq<Event>)
    requires Numbered(log) && floor <= |log| && events == Kept(log, floor) && MustTrim(events)
    ensures floor < number <= |log| && rest == Kept(log, number) && events == Kept(log, number - 1)
    ensures |rest| < |events| && RaisedFloor(events, floor) == RaisedFloor(rest, number)
    ensures !MustTrim(rest) ==> RaisedFloor(rest, number) == number
  {
    FirstLine(log, floor);
    var i := FirstOutput(events);
    number, rest := events[i].number, WithoutAt(events, i);
  }

  /** Trimming stops as soon as it may: with the last line it drops there was too much. */
  lemma {:induction false} TrimmedIsEnough(log: seq<Event>, floor: int, events: seq<Event>)
    requires Numbered(log) && floor <= |log| && events == Kept(log, floor) && MustTrim(events)
    ensures var higher := RaisedFloor(events, floor);
      && floor < higher && TooMuch(Kept(log, higher - 1)) && !MustTrim(Kept(log, higher))
    decreases |events|
  {
    var number, rest := TrimOnce(log, floor, events);
    if MustTrim(rest) {
      TrimmedIsEnough(log, number, rest);
    }
  }

  lemma {:induction false} AppendDropped(log: seq<Event>, e: Event, floor: int)
    requires floor < e.number
    ensures Dropped(log + [e], floor) == Dropped(log, floor)
    decreases |log|
  {
    if log == [] {
      assert [e][1..] == [] && [] + [e] == [e];
    } else {
      assert (log + [e])[1..] == log[1..] + [e];
      AppendDropped(log[1..], e, floor);
    }
  }

  // ---------- the record, as it runs ----------

  class JobRecord {
    var events: seq<Event>
    var bytes: nat
    var next: nat
    var truncated: bool
    ghost var log: seq<Event>
    ghost var floor: int

    ghost function View(): Record
      reads this
    {
      Record(log, floor, truncated)
    }

    ghost predicate Valid()
      reads this
    {
      View().Valid() && next == |log| && events == View().Events() && bytes == TextBytes(events)
    }

    constructor ()
      ensures Valid() && View() == NEW_RECORD
    {
      events, bytes, next, truncated, log, floor := [], 0, 0, false, [], 0;
    }

    method Append(phaseEvent: bool, text: string)
      requires Valid()
      modifies this
      ensures Valid() && View() == Appended(old(View()), phaseEvent, text)
    {
      if next == MAX_SEQ {
        truncated := true;
        return;
      }
      var cut, shortened := BoundedText(text, MAX_DISPLAY_ENTRY_BYTES);
      truncated := truncated || shortened;
      Extend(Event(next + 1, phaseEvent, cut));
    }

    /** The entry is kept, and then the oldest output lines go while there is too much. */
    method Extend(e: Event)
      requires Valid() && next < MAX_SEQ && e.number == next + 1
      modifies this
      ensures Valid() && View() == Extended(old(View()), e)
    {
      ExtendedMeans(View(), e);
      TextBytesAppend(events, e);
      ghost var r := Extended(View(), e);
      next := next + 1;
      bytes := bytes + Bytes(e.text);
      events := events + [e];
      log, floor := r.log, r.floor;
      TrimEvents();
    }

    /** The loop that drops the oldest output lines. */
    method TrimEvents()
      requires bytes == TextBytes(events)
      modifies `events, `bytes, `truncated
      ensures events == Trimmed(old(events)) && bytes == TextBytes(events)
      ensures truncated == (old(truncated) || events != old(events))
    {
      while |events| > MAX_RETAINED_EVENTS || bytes > MAX_RETAINED_EVENT_TEXT_BYTES
        invariant bytes == TextBytes(events) && Trimmed(events) == Trimmed(old(events))
        invariant |events| <= |old(events)| && (|events| == |old(events)| ==> events == old(events))
        invariant truncated == (old(truncated) || |events| < |old(events)|)
        decreases |events|
      {
        if !(exists i :: 0 <= i < |events| && !events[i].phaseEvent) {
          break;
        }
        var position := FirstOutput(events);
        TextBytesWithout(events, position);
        bytes := bytes - Bytes(events[position].text);
        events := WithoutAt(events, position);
        truncated := true;
      }
    }

    /** Nothing for a number the log has not reached; otherwise what is kept of the log after it. */
    method SnapshotAfter(after: nat) returns (s: Option<Snapshot>)
      requires Valid()
      ensures s == SnapshotOf(View(), after) && (s.Some? <==> after <= next)
      ensures s.Some? ==> s.value.events == Kept(log[after..], floor) && s.value.next == next
    {
      if after > next {
        return None;
      }
      AboveOfKept(log, floor, after);
      return Some(Snapshot(Above(events, after), next, truncated));
    }
  }
}
