/**
 The authentication limiter: failures per key within a window, a lockout after too many of them, and
 a bounded table. Times are integers in any unit; `window` and `lockout` are in the same unit.
 */
module RateLimiter {
  import opened Basics
  import opened Ordering

  datatype Config = Config(maxFailures: nat, window: int, lockout: int, maxEntries: nat, second: int)

  datatype Entry = Entry(failures: nat, windowStart: int, lockedUntil: Option<int>, lastSeen: int)

  type Entries = map<string, Entry>

  datatype Rejection = Rejection(failures: nat, lockedUntil: int, retryAfter: int)

  datatype Outcome = Outcome(failures: nat, lockedUntil: Option<int>, retryAfter: Option<int>)

  const MAX_U32: nat := 0xFFFF_FFFF

  predicate Expired(config: Config, e: Entry, now: int) {
    now - e.windowStart > config.window
  }

  predicate Locked(e: Entry, now: int) {
    e.lockedUntil.Some? && e.lockedUntil.value > now
  }

  /** Whole seconds left, at least one. */
  function RetryAfter(config: Config, now: int, until: int): int
    requires config.second > 0
  {
    var seconds := if until >= now then (until - now) / config.second else -((now - until) / config.second);
    if seconds > 1 then seconds else 1
  }

  function Live(config: Config, entries: Entries, now: int): Entries {
    map key | key in entries && !Expired(config, entries[key], now) :: entries[key]
  }

  // ---------- what each call does to the table ----------

  function Checked(config: Config, entries: Entries, key: string, now: int): Entries {
    if config.maxFailures == 0 || key !in entries then entries
    else if Expired(config, entries[key], now) then entries - {key}
    else entries[key := entries[key].(lastSeen := now)]
  }

  function CheckAnswer(config: Config, entries: Entries, key: string, now: int): Option<Rejection>
    requires config.second > 0
  {
    if config.maxFailures == 0 || key !in entries || Expired(config, entries[key], now) then None
    else if !Locked(entries[key], now) then None
    else
      var until := entries[key].lockedUntil.value;
      Some(Rejection(entries[key].failures, until, RetryAfter(config, now, until)))
  }

  ghost predicate SeenBefore(entries: Entries, k: string, j: string)
    requires k in entries && j in entries
  {
    entries[k].lastSeen < entries[j].lastSeen || (entries[k].lastSeen == entries[j].lastSeen && Less(k, j))
  }

  /** The unlocked key that was seen least recently; equal times are decided by the keys. */
  ghost predicate IsVictim(entries: Entries, now: int, k: string) {
    k in entries && !Locked(entries[k], now) &&
    forall j :: j in entries && j != k && !Locked(entries[j], now) ==> SeenBefore(entries, k, j)
  }

  ghost predicate IsEarliest(entries: Entries, until: int) {
    (exists k :: k in entries && entries[k].lockedUntil == Some(until)) &&
    forall k :: k in entries && entries[k].lockedUntil.Some? ==> until <= entries[k].lockedUntil.value
  }

  ghost predicate AllLocked(entries: Entries, now: int) {
    forall k :: k in entries ==> Locked(entries[k], now)
  }

  function Counted(config: Config, e: Entry, now: int): Entry {
    var failures := if e.failures < MAX_U32 then e.failures + 1 else MAX_U32;
    Entry(failures, e.windowStart,
          if failures >= config.maxFailures then Some(now + config.lockout) else e.lockedUntil, now)
  }

  function Bumped(config: Config, entries: Entries, key: string, now: int): Entries {
    entries[key := Counted(config, if key in entries then entries[key] else Entry(0, now, None, now), now)]
  }

  lemma {:induction false} VictimExists(entries: Entries, now: int, keys: set<string>) returns (victim: string)
    requires keys <= entries.Keys && exists k :: k in keys && !Locked(entries[k], now)
    ensures victim in keys && !Locked(entries[victim], now)
    ensures forall j :: j in keys && j != victim && !Locked(entries[j], now) ==> SeenBefore(entries, victim, j)
    decreases |keys|
  {
    var k :| k in keys && !Locked(entries[k], now);
    victim := k;
    var rest := keys - {k};
    if exists j :: j in rest && !Locked(entries[j], now) {
      assert |rest| < |keys|;
      var v := VictimExists(entries, now, rest);
      LessTotal(v, k);
      if SeenBefore(entries, v, k) {
        victim := v;
      } else {
        forall j | j in keys && j != k && !Locked(entries[j], now) ensures SeenBefore(entries, k, j) {
          if j != v && Less(k, v) && Less(v, j) {
            LessTransitive(k, v, j);
          }
        }
      }
    }
  }

  lemma VictimIsUnique(entries: Entries, now: int, k: string, j: string)
    requires IsVictim(entries, now, k) && IsVictim(entries, now, j)
    ensures k == j
  {
    if k != j {
      assert SeenBefore(entries, k, j) && SeenBefore(entries, j, k);
      LessAsymmetric(k, j);
    }
  }

  ghost function Victim(entries: Entries, now: int): (victim: string)
    requires !AllLocked(entries, now)
    ensures IsVictim(entries, now, victim)
  {
    assert exists k :: IsVictim(entries, now, k) by {
      var victim := VictimExists(entries, now, entries.Keys);
      assert IsVictim(entries, now, victim);
    }
    var k :| IsVictim(entries, now, k);
    k
  }

  lemma {:induction false} EarliestExists(entries: Entries, now: int, keys: set<string>) returns (owner: string)
    requires keys <= entries.Keys && keys != {} && AllLocked(entries, now)
    ensures owner in keys
    ensures forall k :: k in keys ==> entries[owner].lockedUntil.value <= entries[k].lockedUntil.value
    decreases |keys|
  {
    var first :| first in keys;
    var rest := keys - {first};
    owner := first;
    if rest != {} {
      assert |rest| < |keys|;
      var other := EarliestExists(entries, now, rest);
      if entries[other].lockedUntil.value < entries[first].lockedUntil.value {
        owner := other;
      }
    }
    forall k | k in keys ensures entries[owner].lockedUntil.value <= entries[k].lockedUntil.value {
      assert k == first || k in rest;
    }
  }

  ghost function Earliest(entries: Entries, now: int): (until: int)
    requires entries.Keys != {} && AllLocked(entries, now)
    ensures IsEarliest(entries, until)
  {
    assert exists until :: IsEarliest(entries, until) by {
      var owner := EarliestExists(entries, now, entries.Keys);
      assert entries[owner].lockedUntil == Some(entries[owner].lockedUntil.value);
      assert IsEarliest(entries, entries[owner].lockedUntil.value);
    }
    var until :| IsEarliest(entries, until);
    until
  }

  predicate Off(config: Config) {
    config.maxFailures == 0 || config.maxEntries == 0
  }

  predicate Full(config: Config, live: Entries, key: string) {
    key !in live && |live| >= config.maxEntries
  }

  function Told(config: Config, e: Entry, now: int): Outcome
    requires config.second > 0
  {
    Outcome(e.failures, e.lockedUntil,
            if Locked(e, now) then Some(RetryAfter(config, now, e.lockedUntil.value)) else None)
  }

  /** The table after a failure on a table without expired entries. */
  ghost function Recorded(config: Config, live: Entries, key: string, now: int): Entries {
    if !Full(config, live, key) then Bumped(config, live, key, now)
    else if AllLocked(live, now) then live
    else Bumped(config, live - {Victim(live, now)}, key, now)
  }

  ghost function RecordedAnswer(config: Config, live: Entries, key: string, now: int): Outcome
    requires config.second > 0 && !Off(config)
  {
    if Full(config, live, key) && AllLocked(live, now) then
      assert live != map[];
      var until := Earliest(live, now);
      Outcome(config.maxFailures, Some(until), Some(RetryAfter(config, now, until)))
    else Told(config, Recorded(config, live, key, now)[key], now)
  }

  ghost function Failed(config: Config, entries: Entries, key: string, now: int): Entries {
    if Off(config) then entries else Recorded(config, Live(config, entries, now), key, now)
  }

  ghost function FailureAnswer(config: Config, entries: Entries, key: string, now: int): Outcome
    requires config.second > 0
  {
    if Off(config) then Outcome(0, None, None)
    else RecordedAnswer(config, Live(config, entries, now), key, now)
  }

  class AuthRateLimiter {
    var entries: Entries

    constructor ()
      ensures entries == map[]
    {
      entries := map[];
    }

    method Check(config: Config, key: string, now: int) returns (r: Option<Rejection>)
      requires config.second > 0
      modifies this
      ensures entries == Checked(config, old(entries), key, now)
      ensures r == CheckAnswer(config, old(entries), key, now)
    {
      if config.maxFailures == 0 || key !in entries {
        return None;
      }
      if Expired(config, entries[key], now) {
        entries := entries - {key};
        return None;
      }
      entries := entries[key := entries[key].(lastSeen := now)];
      var e := entries[key];
      if Locked(e, now) {
        return Some(Rejection(e.failures, e.lockedUntil.value, RetryAfter(config, now, e.lockedUntil.value)));
      }
      return None;
    }

    /** The scan for the least recently seen unlocked key. */
    method OldestUnlocked(now: int) returns (victim: Option<string>)
      ensures victim.None? <==> AllLocked(entries, now)
      ensures victim.Some? ==> victim.value == Victim(entries, now)
    {
      victim := None;
      var rest := entries.Keys;
      while rest != {}
        invariant rest <= entries.Keys
        invariant victim.None? ==> forall j :: j in entries && j !in rest ==> Locked(entries[j], now)
        invariant victim.Some? ==> victim.value in entries && !Locked(entries[victim.value], now)
        invariant victim.Some? ==>
          forall j :: j in entries && j !in rest && j != victim.value && !Locked(entries[j], now) ==>
            SeenBefore(entries, victim.value, j)
        decreases |rest|
      {
        var k :| k in rest;
        rest := rest - {k};
        if !Locked(entries[k], now) {
          if victim.None? {
            victim := Some(k);
          } else {
            var v := victim.value;
            if v != k {
              LessTotal(v, k);
              if entries[k].lastSeen < entries[v].lastSeen ||
                 (entries[k].lastSeen == entries[v].lastSeen && Less(k, v)) {
                forall j | j in entries && j !in rest && j != k && !Locked(entries[j], now)
                  ensures SeenBefore(entries, k, j)
                {
                  if j != v && Less(v, j) && Less(k, v) {
                    LessTransitive(k, v, j);
                  }
                }
                victim := Some(k);
              }
            }
          }
        }
      }
      if victim.Some? {
        VictimIsUnique(entries, now, victim.value, Victim(entries, now));
      }
    }

    /** The earliest lockout of a full table; there is one, so the lookup cannot fail. */
    method EarliestLockout(now: int) returns (until: int)
      requires entries.Keys != {} && AllLocked(entries, now)
      ensures until == Earliest(entries, now)
    {
      var earliest: Option<int> := None;
      var rest := entries.Keys;
      while rest != {}
        invariant rest <= entries.Keys
        invariant earliest.None? ==> rest == entries.Keys
        invariant earliest.Some? ==> exists k :: k in entries && entries[k].lockedUntil == earliest
        invariant earliest.Some? ==>
          forall k :: k in entries && k !in rest && entries[k].lockedUntil.Some? ==>
            earliest.value <= entries[k].lockedUntil.value
        decreases |rest|
      {
        var k :| k in rest;
        rest := rest - {k};
        assert Locked(entries[k], now);
        if earliest.None? || entries[k].lockedUntil.value < earliest.value {
          earliest := entries[k].lockedUntil;
        }
      }
      until := earliest.value;
    }

    method RecordFailure(config: Config, key: string, now: int) returns (r: Outcome)
      requires config.second > 0
      modifies this
      ensures entries == Failed(config, old(entries), key, now)
      ensures r == FailureAnswer(config, old(entries), key, now)
    {
      if config.maxFailures == 0 || config.maxEntries == 0 {
        return Outcome(0, None, None);
      }
      entries := Live(config, entries, now);
      if key !in entries && |entries| >= config.maxEntries {
        var victim := OldestUnlocked(now);
        if victim.Some? {
          entries := entries - {victim.value};
        } else {
          var until := EarliestLockout(now);
          return Outcome(config.maxFailures, Some(until), Some(RetryAfter(config, now, until)));
        }
      }
      var e := if key in entries then entries[key] else Entry(0, now, None, now);
      if Expired(config, e, now) {
        e := Entry(0, now, None, e.lastSeen);
      }
      e := Counted(config, e, now);
      entries := entries[key := e];
      return Told(config, e, now);
    }

    method RecordSuccess(key: string)
      modifies this
      ensures entries == old(entries) - {key}
    {
      entries := entries - {key};
    }
  }

  // ---------- lazy expiry is unobservable ----------

  datatype Call = Check(key: string, now: int) | Failure(key: string, now: int) | Success(key: string, now: int)

  datatype Answer = Checking(rejection: Option<Rejection>) | Counting(outcome: Outcome) | Nothing

  ghost function Step(config: Config, entries: Entries, c: Call): Entries {
    match c
    case Check(key, now) => Checked(config, entries, key, now)
    case Failure(key, now) => Failed(config, entries, key, now)
    case Success(key, _) => entries - {key}
  }

  ghost function AnswerTo(config: Config, entries: Entries, c: Call): Answer
    requires config.second > 0
  {
    match c
    case Check(key, now) => Checking(CheckAnswer(config, entries, key, now))
    case Failure(key, now) => Counting(FailureAnswer(config, entries, key, now))
    case Success(_, _) => Nothing
  }

  /** The same calls on a table that holds no expired entry at any instant; nothing tests for expiry. */
  ghost function EagerStep(config: Config, entries: Entries, c: Call): Entries {
    var live := Live(config, entries, c.now);
    match c
    case Check(key, now) =>
      if config.maxFailures == 0 || key !in live then live else live[key := live[key].(lastSeen := now)]
    case Failure(key, now) => if Off(config) then live else Recorded(config, live, key, now)
    case Success(key, _) => live - {key}
  }

  ghost function EagerAnswer(config: Config, entries: Entries, c: Call): Answer
    requires config.second > 0
  {
    var live := Live(config, entries, c.now);
    match c
    case Check(key, now) =>
      Checking(
        if config.maxFailures == 0 || key !in live || !Locked(live[key], now) then None
        else Some(Rejection(live[key].failures, live[key].lockedUntil.value,
                            RetryAfter(config, now, live[key].lockedUntil.value))))
    case Failure(key, now) =>
      Counting(if Off(config) then Outcome(0, None, None) else RecordedAnswer(config, live, key, now))
    case Success(_, _) => Nothing
  }

  ghost function Answers(config: Config, entries: Entries, calls: seq<Call>): seq<Answer>
    requires config.second > 0
    decreases |calls|
  {
    if calls == [] then []
    else [AnswerTo(config, entries, calls[0])] + Answers(config, Step(config, entries, calls[0]), calls[1..])
  }

  ghost function EagerAnswers(config: Config, entries: Entries, calls: seq<Call>): seq<Answer>
    requires config.second > 0
    decreases |calls|
  {
    if calls == [] then []
    else
      [EagerAnswer(config, entries, calls[0])] +
      EagerAnswers(config, EagerStep(config, entries, calls[0]), calls[1..])
  }

  ghost function After(config: Config, entries: Entries, calls: seq<Call>): Entries
    decreases |calls|
  {
    if calls == [] then entries else After(config, Step(config, entries, calls[0]), calls[1..])
  }

  ghost function EagerAfter(config: Config, entries: Entries, calls: seq<Call>): Entries
    decreases |calls|
  {
    if calls == [] then entries else EagerAfter(config, EagerStep(config, entries, calls[0]), calls[1..])
  }

  function LastTime(calls: seq<Call>, t: int): int {
    if calls == [] then t else calls[|calls| - 1].now
  }

  predicate InOrder(calls: seq<Call>) {
    forall i, j :: 0 <= i <= j < |calls| ==> calls[i].now <= calls[j].now
  }

  /** Expired entries stay expired, so purging early or late gives the same table later on. */
  lemma PurgingIsMonotone(config: Config, lazy: Entries, eager: Entries, t: int, now: int)
    requires Live(config, lazy, t) == Live(config, eager, t) && t <= now
    ensures Live(config, lazy, now) == Live(config, eager, now)
  {
    forall key
      ensures key in Live(config, lazy, now) <==> key in Live(config, eager, now)
      ensures key in Live(config, lazy, now) ==> Live(config, lazy, now)[key] == Live(config, eager, now)[key]
    {
      assert key in Live(config, lazy, t) <==> key in Live(config, eager, t);
    }
  }

  lemma LazyStepSimulates(config: Config, lazy: Entries, eager: Entries, c: Call)
    requires config.second > 0 && Live(config, lazy, c.now) == Live(config, eager, c.now)
    ensures AnswerTo(config, lazy, c) == EagerAnswer(config, eager, c)
    ensures Live(config, Step(config, lazy, c), c.now) == Live(config, EagerStep(config, eager, c), c.now)
  {
    var live := Live(config, lazy, c.now);
    assert c.key in live <==> c.key in lazy && !Expired(config, lazy[c.key], c.now);
    assert live == Live(config, live, c.now);
  }

  lemma {:induction false} LazyRunSimulates(config: Config, lazy: Entries, eager: Entries, t: int, calls: seq<Call>)
    requires config.second > 0 && InOrder(calls) && (calls != [] ==> t <= calls[0].now)
    requires Live(config, lazy, t) == Live(config, eager, t)
    ensures Answers(config, lazy, calls) == EagerAnswers(config, eager, calls)
    ensures var end := LastTime(calls, t);
      Live(config, After(config, lazy, calls), end) == Live(config, EagerAfter(config, eager, calls), end)
    decreases |calls|
  {
    if calls != [] {
      var c := calls[0];
      PurgingIsMonotone(config, lazy, eager, t, c.now);
      LazyStepSimulates(config, lazy, eager, c);
      LazyRunSimulates(config, Step(config, lazy, c), EagerStep(config, eager, c), c.now, calls[1..]);
    }
  }

  /**
   For times that never go back, nobody can tell when expired entries are really deleted: all answers
   agree, and so do the entries in force at the end, hence every victim chosen on the way.
   */
  lemma LazyExpiryIsUnobservable(config: Config, calls: seq<Call>)
    requires config.second > 0 && InOrder(calls)
    ensures Answers(config, map[], calls) == EagerAnswers(config, map[], calls)
    ensures var end := LastTime(calls, 0);
      Live(config, After(config, map[], calls), end) == Live(config, EagerAfter(config, map[], calls), end)
  {
    if calls != [] {
      LazyRunSimulates(config, map[], map[], calls[0].now, calls);
    }
  }

  // ---------- capacity and lockouts ----------

  lemma SmallerMap(a: Entries, b: Entries)
    requires a.Keys <= b.Keys
    ensures |a| <= |b|
    decreases |a.Keys|
  {
    if a.Keys != {} {
      var k :| k in a.Keys;
      assert (a - {k}).Keys == a.Keys - {k} && (b - {k}).Keys == b.Keys - {k};
      SmallerMap(a - {k}, b - {k});
    }
  }

  lemma RecordingKeepsCapacity(config: Config, live: Entries, key: string, now: int)
    requires |live| <= config.maxEntries && !Off(config)
    ensures |Recorded(config, live, key, now)| <= config.maxEntries
  {
    if !Full(config, live, key) {
      assert Bumped(config, live, key, now).Keys == live.Keys + {key};
      if key in live {
        assert live.Keys + {key} == live.Keys;
      }
    } else if !AllLocked(live, now) {
      var victim := Victim(live, now);
      assert (live - {victim}).Keys == live.Keys - {victim};
      assert Bumped(config, live - {victim}, key, now).Keys == live.Keys - {victim} + {key};
    }
  }

  lemma StepKeepsCapacity(config: Config, entries: Entries, c: Call)
    requires |entries| <= config.maxEntries
    ensures |Step(config, entries, c)| <= config.maxEntries
  {
    match c
    case Check(key, now) => SmallerMap(Checked(config, entries, key, now), entries);
    case Failure(key, now) =>
      SmallerMap(Live(config, entries, now), entries);
      if !Off(config) {
        RecordingKeepsCapacity(config, Live(config, entries, now), key, now);
      }
    case Success(key, _) => SmallerMap(entries - {key}, entries);
  }

  /** The table never outgrows its bound, in any run. */
  lemma {:induction false} CapacityHolds(config: Config, entries: Entries, calls: seq<Call>)
    requires |entries| <= config.maxEntries
    ensures |After(config, entries, calls)| <= config.maxEntries
    decreases |calls|
  {
    if calls != [] {
      StepKeepsCapacity(config, entries, calls[0]);
      CapacityHolds(config, Step(config, entries, calls[0]), calls[1..]);
    }
  }

  /** A lockout that has not run out, in a window that has not run out either. */
  ghost predicate InForce(config: Config, entries: Entries, key: string, now: int) {
    key in entries && Locked(entries[key], now) && !Expired(config, entries[key], now)
  }

  /** Another key's failure neither removes nor changes an entry whose lockout and window are in force. */
  lemma OthersCannotEvict(config: Config, entries: Entries, key: string, other: string, now: int)
    requires other != key && InForce(config, entries, key, now)
    ensures key in Failed(config, entries, other, now)
    ensures Failed(config, entries, other, now)[key] == entries[key]
  {
    var live := Live(config, entries, now);
    assert key in live && live[key] == entries[key];
  }

  /**
   A lockout set by time `t` holds: whatever calls follow in order of time, as long as the key itself
   does not succeed, a check at any time before the lockout and the window run out rejects the key.
   */
  lemma {:induction false} LockoutHolds(
      config: Config, entries: Entries, key: string, t: int, calls: seq<Call>, until: int)
    requires config.second > 0 && config.maxFailures > 0
    requires InForce(config, entries, key, until) && entries[key].lockedUntil.value <= t + config.lockout
    requires InOrder(calls) && forall c :: c in calls ==> t <= c.now <= until && c != Success(key, c.now)
    ensures InForce(config, After(config, entries, calls), key, until)
    ensures CheckAnswer(config, After(config, entries, calls), key, until).Some?
    decreases |calls|
  {
    if calls != [] {
      var c := calls[0];
      assert c in calls;
      assert InForce(config, entries, key, c.now);
      if c.Failure? && c.key != key {
        OthersCannotEvict(config, entries, key, c.key, c.now);
      } else if c.Failure? && !Off(config) {
        assert key in Live(config, entries, c.now);
      }
      LockoutHolds(config, Step(config, entries, c), key, c.now, calls[1..], until);
    }
  }

  // ---------- when a key is locked ----------

  /** How many failures of the key are among these calls. */
  function FailuresOf(key: string, calls: seq<Call>): nat
    decreases |calls|
  {
    if calls == [] then 0
    else (if calls[0].Failure? && calls[0].key == key then 1 else 0) + FailuresOf(key, calls[1..])
  }

  /** The call neither forgets the key nor makes it the victim of another one. */
  ghost predicate Spares(config: Config, entries: Entries, key: string, c: Call) {
    match c
    case Check(_, _) => true
    case Success(other, _) => other != key
    case Failure(other, now) =>
      var live := Live(config, entries, now);
      other != key && Full(config, live, other) && !AllLocked(live, now) ==> Victim(live, now) != key
  }

  ghost predicate AllSpare(config: Config, entries: Entries, key: string, calls: seq<Call>)
    decreases |calls|
  {
    calls == [] ||
    (Spares(config, entries, key, calls[0]) && AllSpare(config, Step(config, entries, calls[0]), key, calls[1..]))
  }

  /** What the entry of a key says after some more failures in its window. */
  ghost predicate CountsTo(config: Config, before: Entry, after: Entry, more: nat) {
    after.failures == before.failures + more && after.windowStart == before.windowStart &&
    (more == 0 || after.failures < config.maxFailures ==> after.lockedUntil == before.lockedUntil) &&
    (more > 0 && after.failures >= config.maxFailures ==> after.lockedUntil.Some?)
  }

  lemma SparingStep(config: Config, entries: Entries, key: string, c: Call)
    requires !Off(config) && key in entries && entries[key].failures < MAX_U32
    requires !Expired(config, entries[key], c.now) && Spares(config, entries, key, c)
    ensures key in Step(config, entries, c)
    ensures CountsTo(config, entries[key], Step(config, entries, c)[key], FailuresOf(key, [c]))
  {
    assert [c][1..] == [];
    if c.Failure? {
      assert key in Live(config, entries, c.now) && Live(config, entries, c.now)[key] == entries[key];
    }
  }

  lemma {:induction false} FailuresAddUp(config: Config, entries: Entries, key: string, calls: seq<Call>)
    requires !Off(config) && key in entries && AllSpare(config, entries, key, calls)
    requires entries[key].failures + |calls| <= MAX_U32
    requires forall c :: c in calls ==> !Expired(config, entries[key], c.now)
    ensures var end := After(config, entries, calls);
      key in end && CountsTo(config, entries[key], end[key], FailuresOf(key, calls))
    decreases |calls|
  {
    if calls != [] {
      var c := calls[0];
      assert c in calls;
      SparingStep(config, entries, key, c);
      assert [c][1..] == [];
      FailuresAddUp(config, Step(config, entries, c), key, calls[1..]);
    }
  }

  /**
   A key that starts a window on a table that can take it, and then calls of any keys within that
   window which neither succeed for it nor make it the victim: it is locked exactly when there were at
   least the configured number of its own failures.
   */
  lemma LockedExactlyAfterMaxFailures(config: Config, entries: Entries, key: string, calls: seq<Call>)
    requires !Off(config) && calls != [] && calls[0] == Failure(key, calls[0].now) && |calls| <= MAX_U32
    requires var live := Live(config, entries, calls[0].now);
      key !in live && (|live| < config.maxEntries || !AllLocked(live, calls[0].now))
    requires AllSpare(config, Step(config, entries, calls[0]), key, calls[1..])
    requires forall c :: c in calls ==> c.now - calls[0].now <= config.window
    ensures var end := After(config, entries, calls);
      && key in end && end[key].failures == FailuresOf(key, calls)
      && (end[key].lockedUntil.Some? <==> FailuresOf(key, calls) >= config.maxFailures)
  {
    var c := calls[0];
    assert c in calls;
    var next := Step(config, entries, c);
    assert next[key] == Counted(config, Entry(0, c.now, None, c.now), c.now);
    FailuresAddUp(config, next, key, calls[1..]);
  }

  // ---------- the limiter in plain terms ----------

  lemma Quotient(x: int, d: int)
    requires x > 0 && d > 0
    ensures x / d * d <= x < (x / d + 1) * d && x / d >= 0
    ensures x < d <==> x / d == 0
  {
    assert x == x / d * d + x % d;
    assert (x / d + 1) * d == x / d * d + d;
  }

  /** The whole seconds left of a lockout, at least one. */
  lemma RetryIsSecondsLeft(config: Config, now: int, until: int)
    requires config.second > 0 && until > now
    ensures var seconds := RetryAfter(config, now, until);
      && seconds >= 1
      && (until - now < config.second ==> seconds == 1)
      && (until - now >= config.second ==>
            seconds * config.second <= until - now < (seconds + 1) * config.second)
  {
    Quotient(until - now, config.second);
  }

  /** A check rejects exactly within a window and before the end of a lockout; it forgets a key whose window is over. */
  lemma CheckMeans(config: Config, entries: Entries, key: string, now: int)
    requires config.second > 0 && config.maxFailures > 0
    ensures var r, after := CheckAnswer(config, entries, key, now), Checked(config, entries, key, now);
      && (key !in entries ==> r == None && after == entries)
      && (key in entries && now - entries[key].windowStart > config.window ==> r == None && after == entries - {key})
      && (key in entries && now - entries[key].windowStart <= config.window ==>
            var e := entries[key];
            after == entries[key := Entry(e.failures, e.windowStart, e.lockedUntil, now)] &&
            (r.Some? <==> e.lockedUntil.Some? && now < e.lockedUntil.value) &&
            (r.Some? ==> r.value.failures == e.failures && Some(r.value.lockedUntil) == e.lockedUntil))
  {
  }

  /** A failure within the window of its key is one more; at the limit it locks until `now` and the lockout. */
  lemma FailureCounts(config: Config, entries: Entries, key: string, now: int)
    requires config.second > 0 && config.maxFailures > 0 && config.maxEntries > 0
    requires key in entries && now - entries[key].windowStart <= config.window && entries[key].failures < MAX_U32
    ensures var e, n := entries[key], entries[key].failures + 1;
      var until := if n >= config.maxFailures then Some(now + config.lockout) else e.lockedUntil;
      var after, r := Failed(config, entries, key, now), FailureAnswer(config, entries, key, now);
      && key in after && after[key] == Entry(n, e.windowStart, until, now)
      && r.failures == n && r.lockedUntil == until
      && (r.retryAfter.Some? <==> until.Some? && now < until.value)
      && (r.retryAfter.Some? ==> r.retryAfter.value == RetryAfter(config, now, until.value))
  {
    var live := Live(config, entries, now);
    assert key in live && live[key] == entries[key];
  }

  /** The others that a failure at this time finds: those within their windows. */
  ghost predicate InWindow(config: Config, entries: Entries, key: string, now: int) {
    key in entries && now - entries[key].windowStart <= config.window
  }

  /**
   A failure of a key that is unknown, or whose window is over, starts a window with one failure if the
   table has room; every key whose window is over is gone, and all others stay as they are.
   */
  lemma FailureStartsAWindow(config: Config, entries: Entries, key: string, now: int)
    requires config.second > 0 && config.maxFailures > 0 && config.maxEntries > 0
    requires !InWindow(config, entries, key, now)
    requires |set k | k in entries && InWindow(config, entries, k, now)| < config.maxEntries
    ensures var until := if config.maxFailures == 1 then Some(now + config.lockout) else None;
      var after, r := Failed(config, entries, key, now), FailureAnswer(config, entries, key, now);
      && key in after && after[key] == Entry(1, now, until, now)
      && r.failures == 1 && r.lockedUntil == until
      && (forall k :: k != key ==>
            (k in after <==> InWindow(config, entries, k, now)) && (k in after ==> after[k] == entries[k]))
  {
    LiveKeys(config, entries, now);
  }

  lemma LiveKeys(config: Config, entries: Entries, now: int)
    ensures var live := Live(config, entries, now);
      && live.Keys == (set k | k in entries && InWindow(config, entries, k, now))
      && |live| == |set k | k in entries && InWindow(config, entries, k, now)|
      && forall k :: k in live ==> live[k] == entries[k]
  {
    var live := Live(config, entries, now);
    assert live.Keys == set k | k in entries && InWindow(config, entries, k, now);
    assert |live| == |live.Keys|;
  }

  ghost predicate Unlocked(config: Config, entries: Entries, k: string, now: int) {
    InWindow(config, entries, k, now) && (entries[k].lockedUntil.None? || entries[k].lockedUntil.value <= now)
  }

  /**
   A new key on a full table takes the place of the unlocked key that was seen least recently, the lesser
   of two that were seen at the same time; no other key within its window is removed or changed.
   */
  lemma FailureEvictsTheOldest(config: Config, entries: Entries, key: string, now: int, victim: string)
    requires config.second > 0 && config.maxFailures > 0 && config.maxEntries > 0
    requires !InWindow(config, entries, key, now)
    requires |set k | k in entries && InWindow(config, entries, k, now)| >= config.maxEntries
    requires Unlocked(config, entries, victim, now)
    requires forall k :: Unlocked(config, entries, k, now) && k != victim ==>
      entries[victim].lastSeen < entries[k].lastSeen ||
      (entries[victim].lastSeen == entries[k].lastSeen && Less(victim, k))
    ensures var after := Failed(config, entries, key, now);
      && key in after && victim !in after
      && after[key].failures == 1 && after[key].windowStart == now
      && (forall k :: k != key && k != victim ==>
            (k in after <==> InWindow(config, entries, k, now)) && (k in after ==> after[k] == entries[k]))
  {
    LiveKeys(config, entries, now);
    var live := Live(config, entries, now);
    forall k | k in live && k != victim && !Locked(live[k], now) ensures SeenBefore(live, victim, k) {
      assert Unlocked(config, entries, k, now);
    }
    assert !Locked(live[victim], now);
    assert IsVictim(live, now, victim);
    VictimIsUnique(live, now, victim, Victim(live, now));
  }

  /** A new key on a table full of locked keys is told the earliest end of a lockout, and changes none of them. */
  lemma FailureOnAFullTable(config: Config, entries: Entries, key: string, now: int, first: string)
    requires config.second > 0 && config.maxFailures > 0 && config.maxEntries > 0
    requires !InWindow(config, entries, key, now)
    requires |set k | k in entries && InWindow(config, entries, k, now)| >= config.maxEntries
    requires forall k :: InWindow(config, entries, k, now) ==>
      entries[k].lockedUntil.Some? && now < entries[k].lockedUntil.value
    requires InWindow(config, entries, first, now)
    requires forall k :: InWindow(config, entries, k, now) ==>
      entries[first].lockedUntil.value <= entries[k].lockedUntil.value
    ensures var until := entries[first].lockedUntil.value;
      && FailureAnswer(config, entries, key, now) ==
           Outcome(config.maxFailures, Some(until), Some(RetryAfter(config, now, until)))
      && Failed(config, entries, key, now).Keys == (set k | k in entries && InWindow(config, entries, k, now))
      && forall k :: InWindow(config, entries, k, now) ==> Failed(config, entries, key, now)[k] == entries[k]
  {
    LiveKeys(config, entries, now);
    var live := Live(config, entries, now);
    forall k | k in live ensures Locked(live[k], now) {
      assert InWindow(config, entries, k, now);
    }
    var until := Earliest(live, now);
    var k :| k in live && live[k].lockedUntil == Some(until);
    assert InWindow(config, entries, k, now) && first in live;
  }

  /** A limiter without a limit, or without room for an entry, counts nothing and rejects nobody. */
  lemma LimiterOff(config: Config, entries: Entries, key: string, now: int)
    requires config.second > 0
    ensures config.maxFailures == 0 ==>
      CheckAnswer(config, entries, key, now) == None && Checked(config, entries, key, now) == entries
    ensures config.maxFailures == 0 || config.maxEntries == 0 ==>
      FailureAnswer(config, entries, key, now) == Outcome(0, None, None) &&
      Failed(config, entries, key, now) == entries
  {
  }
}
