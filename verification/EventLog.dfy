/** Numbered events, and what is left of them when the oldest output lines are dropped. */
module EventLog {
  datatype Event = Event(number: int, phaseEvent: bool, text: string)

  datatype Snapshot = Snapshot(events: seq<Event>, next: int, truncated: bool)

  ghost predicate Increasing(events: seq<Event>) {
    forall i, j :: 0 <= i < j < |events| ==> events[i].number < events[j].number
  }

  /** A log is numbered from 1. */
  ghost predicate Numbered(log: seq<Event>) {
    forall i :: 0 <= i < |log| ==> log[i].number == i + 1
  }

  lemma PutInFront(first: Event, rest: seq<Event>)
    requires Increasing(rest) && forall e :: e in rest ==> first.number < e.number
    ensures Increasing([first] + rest)
  {
    forall j | 0 <= j < |rest| ensures first.number < rest[j].number {
      assert rest[j] in rest;
    }
  }

  lemma FirstIsLeast(events: seq<Event>)
    requires events != [] && Increasing(events)
    ensures Increasing(events[1..]) && forall e :: e in events[1..] ==> events[0].number < e.number
  {
    forall e | e in events[1..] ensures events[0].number < e.number {
      var k :| 0 <= k < |events[1..]| && events[1..][k] == e;
      assert events[k + 1] == e;
    }
  }

  lemma NumberedIncreases(log: seq<Event>)
    requires Numbered(log)
    ensures Increasing(log)
  {
  }

  lemma SliceIncreases(log: seq<Event>, from: int, end: int)
    requires Numbered(log) && 0 <= from <= end <= |log|
    ensures Increasing(log[from..end]) && forall e :: e in log[from..end] ==> from < e.number <= end
  {
    forall e | e in log[from..end] ensures from < e.number <= end {
      var i :| 0 <= i < end - from && log[from..end][i] == e;
      assert log[from + i] == e;
    }
  }

  // ---------- retention ----------

  predicate Retained(e: Event, floor: int) {
    e.phaseEvent || e.number > floor
  }

  /** What a server keeps that has dropped its oldest output lines: every phase, and the later lines. */
  function Kept(events: seq<Event>, floor: int): seq<Event>
    decreases |events|
  {
    if events == [] then []
    else if Retained(events[0], floor) then [events[0]] + Kept(events[1..], floor)
    else Kept(events[1..], floor)
  }

  /** The output lines it has dropped. */
  function Dropped(events: seq<Event>, floor: int): seq<Event>
    decreases |events|
  {
    if events == [] then []
    else if Retained(events[0], floor) then Dropped(events[1..], floor)
    else [events[0]] + Dropped(events[1..], floor)
  }

  function Later(a: int, b: int): int {
    if a < b then b else a
  }

  lemma {:induction false} KeptConcat(a: seq<Event>, b: seq<Event>, floor: int)
    ensures Kept(a + b, floor) == Kept(a, floor) + Kept(b, floor)
    decreases |a|
  {
    if a == [] {
      assert a + b == b;
    } else {
      assert (a + b)[1..] == a[1..] + b;
      KeptConcat(a[1..], b, floor);
    }
  }

  lemma {:induction false} KeptHas(events: seq<Event>, floor: int)
    ensures forall e :: e in Kept(events, floor) <==> e in events && Retained(e, floor)
    decreases |events|
  {
    if events != [] {
      KeptHas(events[1..], floor);
      assert events == [events[0]] + events[1..];
    }
  }

  lemma {:induction false} KeptIncreases(events: seq<Event>, floor: int)
    requires Increasing(events)
    ensures Increasing(Kept(events, floor))
    decreases |events|
  {
    if events != [] {
      FirstIsLeast(events);
      KeptIncreases(events[1..], floor);
      KeptHas(events[1..], floor);
      if Retained(events[0], floor) {
        PutInFront(events[0], Kept(events[1..], floor));
      }
    }
  }

  lemma {:induction false} AllKept(events: seq<Event>, floor: int)
    requires forall e :: e in events ==> Retained(e, floor)
    ensures Kept(events, floor) == events && Dropped(events, floor) == []
    decreases |events|
  {
    if events != [] {
      assert events[0] in events && forall e :: e in events[1..] ==> e in events;
      AllKept(events[1..], floor);
      assert events == [events[0]] + events[1..];
    }
  }

  lemma {:induction false} KeptTwice(events: seq<Event>, a: int, b: int)
    ensures Kept(Kept(events, a), b) == Kept(events, Later(a, b))
    decreases |events|
  {
    if events != [] {
      var e, rest := events[0], events[1..];
      KeptTwice(rest, a, b);
      if Retained(e, a) {
        assert ([e] + Kept(rest, a))[1..] == Kept(rest, a);
      }
    }
  }

  lemma {:induction false} DroppedAre(events: seq<Event>, floor: int)
    ensures forall e :: e in Dropped(events, floor) <==> e in events && !Retained(e, floor)
    decreases |events|
  {
    if events != [] {
      DroppedAre(events[1..], floor);
      assert events == [events[0]] + events[1..];
    }
  }
}
