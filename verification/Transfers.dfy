/**
 The transfer registry: a client retries a transfer under one id, one of the claims owns it, and the
 owner's lease ends in a cached response, a release or a cancellation.
 */
module Transfers {
  import opened Basics

  datatype TransferKey = TransferKey(user: int, verb: string, endpoint: string, id: string)

  type Response = seq<bv8>

  const TERMINAL_CAPACITY: nat := 64

  const TERMINAL_RETENTION: int := 60 * 60

  /** The lease number stands for the cancellation token a running entry shares with its lease. */
  datatype Entry = Running(lease: nat) | Complete(response: Response, at: int) | Cancelled(at: int)

  type Entries = map<TransferKey, Entry>

  datatype Claim = Owner(lease: nat) | AlreadyRunning | Completed(response: Response) | WasCancelled

  datatype CancelResult = NowCancelled | AlreadyComplete | NotFound

  predicate IdCharacter(c: char) {
    Alphanumeric(c) || c == '_'
  }

  predicate ValidId(id: string) {
    |id| <= 128 && ((|id| > 7 && id[..7] == "upload_") || (|id| > 4 && id[..4] == "gog_")) &&
    forall i :: 0 <= i < |id| ==> IdCharacter(id[i])
  }

  predicate Terminal(e: Entry) {
    !e.Running?
  }

  /** When a terminal entry became one. */
  function At(e: Entry): int {
    match e
    case Running(_) => 0
    case Complete(_, at) => at
    case Cancelled(at) => at
  }

  predicate Fresh(e: Entry, now: int) {
    Terminal(e) ==> now - At(e) < TERMINAL_RETENTION
  }

  function Terminals(entries: Entries): set<TransferKey> {
    set key | key in entries && Terminal(entries[key])
  }

  function Outdated(entries: Entries, now: int): set<TransferKey> {
    set key | key in entries && !Fresh(entries[key], now)
  }

  /** The oldest of these entries that exceed the capacity; equal times are broken arbitrarily. */
  ghost predicate OldestOf(entries: Entries, all: set<TransferKey>, dropped: set<TransferKey>)
    requires all <= entries.Keys
  {
    dropped <= all &&
    |all - dropped| == (if |all| > TERMINAL_CAPACITY then TERMINAL_CAPACITY else |all|) &&
    forall d, k :: d in dropped && k in all - dropped ==> At(entries[d]) <= At(entries[k])
  }

  ghost predicate IsOldest(entries: Entries, dropped: set<TransferKey>) {
    OldestOf(entries, Terminals(entries), dropped)
  }

  /** What one pruning may remove: everything outdated, and then the oldest beyond the capacity. */
  ghost predicate IsPruning(entries: Entries, now: int, gone: set<TransferKey>) {
    var outdated := Outdated(entries, now);
    outdated <= gone <= entries.Keys && IsOldest(entries - outdated, gone - outdated)
  }

  lemma PruningIs(entries: Entries, now: int, dropped: set<TransferKey>)
    requires IsOldest(entries - Outdated(entries, now), dropped)
    ensures IsPruning(entries, now, Outdated(entries, now) + dropped)
    ensures entries - Outdated(entries, now) - dropped == entries - (Outdated(entries, now) + dropped)
  {
    assert Outdated(entries, now) + dropped - Outdated(entries, now) == dropped;
  }

  /** The registry and the leases that are still held; `next` is the next lease number. */
  datatype System = System(entries: Entries, leases: map<nat, TransferKey>, next: nat)

  const EMPTY := System(map[], map[], 0)

  datatype Event =
    | Claiming(key: TransferKey, now: int, gone: set<TransferKey>)
    | Cancelling(key: TransferKey, now: int, gone: set<TransferKey>)
    | Completing(lease: nat, response: Response, now: int, gone: set<TransferKey>)
    | Dropping(lease: nat)

  function ClaimAnswer(sys: System, key: TransferKey, gone: set<TransferKey>): Option<Claim> {
    if !ValidId(key.id) then None
    else
      var entries := sys.entries - gone;
      if key !in entries then Some(Owner(sys.next))
      else
        match entries[key]
        case Running(_) => Some(AlreadyRunning)
        case Complete(response, _) => Some(Completed(response))
        case Cancelled(_) => Some(WasCancelled)
  }

  function Claimed(sys: System, key: TransferKey, gone: set<TransferKey>): System {
    if !ValidId(key.id) then sys
    else
      var entries := sys.entries - gone;
      if key in entries then sys.(entries := entries)
      else System(entries[key := Running(sys.next)], sys.leases[sys.next := key], sys.next + 1)
  }

  function CancelAnswer(sys: System, key: TransferKey, gone: set<TransferKey>): CancelResult {
    var entries := sys.entries - gone;
    if key !in entries then NotFound else if entries[key].Complete? then AlreadyComplete else NowCancelled
  }

  function CancelledEntries(entries: Entries, key: TransferKey, now: int): Entries {
    if key in entries && entries[key].Running? then entries[key := Cancelled(now)] else entries
  }

  function CompletedEntries(entries: Entries, key: TransferKey, response: Response, now: int): Entries {
    if key in entries && entries[key].Running? then entries[key := Complete(response, now)] else entries
  }

  function ReleasedEntries(entries: Entries, key: TransferKey): Entries {
    if key in entries && entries[key].Running? then entries - {key} else entries
  }

  ghost predicate Enabled(sys: System, e: Event) {
    match e
    case Claiming(key, now, gone) =>
      if ValidId(key.id) then IsPruning(sys.entries, now, gone) else gone == {}
    case Cancelling(_, now, gone) => IsPruning(sys.entries, now, gone)
    case Completing(lease, response, now, gone) =>
      lease in sys.leases &&
      var key := sys.leases[lease];
      if key in sys.entries && sys.entries[key].Running?
      then IsPruning(CompletedEntries(sys.entries, key, response, now), now, gone) else gone == {}
    case Dropping(lease) => lease in sys.leases
  }

  function Next(sys: System, e: Event): System
    requires e.Completing? || e.Dropping? ==> e.lease in sys.leases
  {
    match e
    case Claiming(key, _, gone) => Claimed(sys, key, gone)
    case Cancelling(key, now, gone) => sys.(entries := CancelledEntries(sys.entries - gone, key, now))
    case Completing(lease, response, now, gone) =>
      sys.(entries := CompletedEntries(sys.entries, sys.leases[lease], response, now) - gone,
           leases := sys.leases - {lease})
    case Dropping(lease) =>
      sys.(entries := ReleasedEntries(sys.entries, sys.leases[lease]), leases := sys.leases - {lease})
  }

  // ---------- the registry ----------

  class BackgroundTransferRegistry {
    var entries: Entries
    var leases: map<nat, TransferKey>
    var next: nat

    ghost function View(): System
      reads this
    {
      System(entries, leases, next)
    }

    method Prune(now: int) returns (gone: set<TransferKey>)
      modifies `entries
      ensures IsPruning(old(entries), now, gone) && entries == old(entries) - gone
    {
      var outdated := Outdated(entries, now);
      entries := entries - outdated;
      var dropped := DropOldest();
      PruningIs(old(entries), now, dropped);
      gone := outdated + dropped;
    }

    /** Terminal entries beyond the capacity go, oldest first. */
    method DropOldest() returns (dropped: set<TransferKey>)
      modifies `entries
      ensures entries == old(entries) - dropped && IsOldest(old(entries), dropped)
    {
      ghost var all := Terminals(entries);
      var terminal := Terminals(entries);
      dropped := {};
      while |terminal| > TERMINAL_CAPACITY
        invariant terminal == all - dropped && dropped <= all && entries == old(entries) - dropped
        invariant |terminal| == if |all| > TERMINAL_CAPACITY then |terminal| else |all|
        invariant |all| > TERMINAL_CAPACITY ==> |terminal| >= TERMINAL_CAPACITY
        invariant forall d, k :: d in dropped && k in terminal ==> At(old(entries)[d]) <= At(old(entries)[k])
        decreases |terminal|
      {
        var oldest := Oldest(terminal);
        dropped := dropped + {oldest};
        entries := entries - {oldest};
        terminal := terminal - {oldest};
      }
    }

    method Oldest(terminal: set<TransferKey>) returns (oldest: TransferKey)
      requires terminal != {} && forall key :: key in terminal ==> key in entries && Terminal(entries[key])
      ensures oldest in terminal && forall key :: key in terminal ==> At(entries[oldest]) <= At(entries[key])
    {
      oldest :| oldest in terminal;
      var rest := terminal - {oldest};
      while rest != {}
        invariant rest <= terminal && oldest in terminal
        invariant forall key :: key in terminal - rest ==> At(entries[oldest]) <= At(entries[key])
        decreases |rest|
      {
        var key :| key in rest;
        rest := rest - {key};
        if At(entries[key]) < At(entries[oldest]) {
          oldest := key;
        }
      }
    }

    method Claim(key: TransferKey, now: int) returns (r: Option<Claim>, gone: set<TransferKey>)
      modifies this
      ensures Enabled(old(View()), Claiming(key, now, gone)) && View() == Next(old(View()), Claiming(key, now, gone))
      ensures r == ClaimAnswer(old(View()), key, gone)
    {
      if !ValidId(key.id) {
        return None, {};
      }
      gone := Prune(now);
      if key in entries {
        match entries[key] {
          case Running(_) => r := Some(AlreadyRunning);
          case Complete(response, _) => r := Some(Completed(response));
          case Cancelled(_) => r := Some(WasCancelled);
        }
      } else {
        entries := entries[key := Running(next)];
        leases := leases[next := key];
        r := Some(Owner(next));
        next := next + 1;
      }
    }

    method Cancel(key: TransferKey, now: int) returns (r: CancelResult, gone: set<TransferKey>)
      modifies this
      ensures Enabled(old(View()), Cancelling(key, now, gone))
      ensures View() == Next(old(View()), Cancelling(key, now, gone))
      ensures r == CancelAnswer(old(View()), key, gone)
    {
      gone := Prune(now);
      if key !in entries {
        return NotFound, gone;
      } else if entries[key].Complete? {
        return AlreadyComplete, gone;
      } else if entries[key].Running? {
        entries := entries[key := Cancelled(now)];
      }
      return NowCancelled, gone;
    }

    method CompleteLease(lease: nat, response: Response, now: int) returns (gone: set<TransferKey>)
      requires lease in leases
      modifies this
      ensures Enabled(old(View()), Completing(lease, response, now, gone))
      ensures View() == Next(old(View()), Completing(lease, response, now, gone))
    {
      var key := leases[lease];
      gone := {};
      if key in entries && entries[key].Running? {
        entries := entries[key := Complete(response, now)];
        gone := Prune(now);
      }
      leases := leases - {lease};
    }

    method DropLease(lease: nat)
      requires lease in leases
      modifies this
      ensures View() == Next(old(View()), Dropping(lease))
    {
      var key := leases[lease];
      if key in entries && entries[key].Running? {
        entries := entries - {key};
      }
      leases := leases - {lease};
    }
  }

  // ---------- what a pruning can remove ----------

  /** The other terminal entries that are in force and at least as recent. */
  function Crowd(entries: Entries, now: int, key: TransferKey): set<TransferKey>
    requires key in entries
  {
    set k |
      k in entries && k != key && Terminal(entries[k]) && Fresh(entries[k], now) &&
      At(entries[k]) >= At(entries[key])
  }

  /** Within the retention, with fewer than the capacity of others at least as recent. */
  predicate Retained(entries: Entries, now: int, key: TransferKey)
    requires key in entries
  {
    Fresh(entries[key], now) && |Crowd(entries, now, key)| < TERMINAL_CAPACITY
  }

  lemma RetainedIsNotPruned(entries: Entries, now: int, gone: set<TransferKey>, key: TransferKey)
    requires IsPruning(entries, now, gone) && key in entries && Retained(entries, now, key)
    ensures key !in gone
  {
    var outdated := Outdated(entries, now);
    var recent, dropped := entries - outdated, gone - outdated;
    if key in dropped {
      var left := Terminals(recent) - dropped;
      assert Terminals(recent) == left + dropped;
      assert left <= Crowd(entries, now, key);
      SubsetSize(left, Crowd(entries, now, key));
    }
  }

  lemma {:induction false} OldestEntry(entries: Entries, all: set<TransferKey>) returns (m: TransferKey)
    requires all <= entries.Keys && all != {}
    ensures m in all && forall k :: k in all ==> At(entries[m]) <= At(entries[k])
    decreases |all|
  {
    var first :| first in all;
    var rest := all - {first};
    m := first;
    if rest != {} {
      assert |rest| < |all|;
      m := OldestEntry(entries, rest);
      if At(entries[first]) < At(entries[m]) {
        m := first;
      }
    }
    forall k | k in all ensures At(entries[m]) <= At(entries[k]) {
      assert k == first || k in rest;
    }
  }

  lemma OneMoreDropped(entries: Entries, all: set<TransferKey>, m: TransferKey, dropped: set<TransferKey>)
    requires all <= entries.Keys && |all| > TERMINAL_CAPACITY
    requires m in all && forall k :: k in all ==> At(entries[m]) <= At(entries[k])
    requires OldestOf(entries, all - {m}, dropped)
    ensures OldestOf(entries, all, dropped + {m})
  {
    assert all - (dropped + {m}) == all - {m} - dropped;
    assert |all - {m}| == |all| - 1;
  }

  lemma {:induction false} OldestExist(entries: Entries, all: set<TransferKey>) returns (dropped: set<TransferKey>)
    requires all <= entries.Keys
    ensures OldestOf(entries, all, dropped)
    decreases |all|
  {
    dropped := {};
    assert all - {} == all;
    if |all| > TERMINAL_CAPACITY {
      var m := OldestEntry(entries, all);
      assert |all - {m}| < |all|;
      dropped := OldestExist(entries, all - {m});
      OneMoreDropped(entries, all, m, dropped);
      dropped := dropped + {m};
    }
  }

  function AtLeastAsRecent(entries: Entries, all: set<TransferKey>, key: TransferKey): set<TransferKey>
    requires all <= entries.Keys && key in all
  {
    set k | k in all && k != key && At(entries[k]) >= At(entries[key])
  }

  /** A crowded entry can be among the dropped ones. */
  lemma {:induction false} CrowdedCanBeDropped(entries: Entries, all: set<TransferKey>, key: TransferKey)
    returns (dropped: set<TransferKey>)
    requires all <= entries.Keys && key in all
    requires |AtLeastAsRecent(entries, all, key)| >= TERMINAL_CAPACITY
    ensures OldestOf(entries, all, dropped) && key in dropped
    decreases |all|
  {
    var crowd := AtLeastAsRecent(entries, all, key);
    var m := OldestEntry(entries, all);
    if At(entries[m]) == At(entries[key]) {
      m := key;
    }
    SubsetSize(crowd + {key}, all);
    if m == key {
      SubsetSize(crowd, all - {key});
      dropped := OldestExist(entries, all - {key});
    } else {
      assert AtLeastAsRecent(entries, all - {m}, key) == crowd;
      assert |all - {m}| < |all|;
      dropped := CrowdedCanBeDropped(entries, all - {m}, key);
    }
    OneMoreDropped(entries, all, m, dropped);
    dropped := dropped + {m};
  }

  lemma OthersCanBePruned(entries: Entries, now: int, key: TransferKey) returns (gone: set<TransferKey>)
    requires key in entries && !Retained(entries, now, key) && Terminal(entries[key])
    ensures IsPruning(entries, now, gone) && key in gone
  {
    var outdated := Outdated(entries, now);
    var recent, dropped := entries - outdated, {};
    if Fresh(entries[key], now) {
      assert AtLeastAsRecent(recent, Terminals(recent), key) == Crowd(entries, now, key);
      dropped := CrowdedCanBeDropped(recent, Terminals(recent), key);
    } else {
      dropped := OldestExist(recent, Terminals(recent));
    }
    PruningIs(entries, now, dropped);
    gone := outdated + dropped;
  }

  /**
   A terminal record can be pruned exactly when its retention is over, or when at least the capacity
   of other records in force are as recent.
   */
  lemma WhenRecordsAreSafe(entries: Entries, now: int, key: TransferKey)
    requires key in entries && Terminal(entries[key])
    ensures (forall gone :: IsPruning(entries, now, gone) ==> key !in gone) <==> Retained(entries, now, key)
  {
    forall gone | IsPruning(entries, now, gone) && Retained(entries, now, key) ensures key !in gone {
      RetainedIsNotPruned(entries, now, gone, key);
    }
    if !Retained(entries, now, key) {
      var gone := OthersCanBePruned(entries, now, key);
    }
  }

  // ---------- one owner per key ----------

  ghost predicate Held(sys: System, key: TransferKey) {
    exists lease :: lease in sys.leases && sys.leases[lease] == key
  }

  /** Whether an event prunes; if so, which table and when. */
  predicate Prunes(sys: System, e: Event) {
    match e
    case Claiming(key, _, _) => ValidId(key.id)
    case Cancelling(_, _, _) => true
    case Completing(lease, _, _, _) =>
      lease in sys.leases && sys.leases[lease] in sys.entries && sys.entries[sys.leases[lease]].Running?
    case Dropping(_) => false
  }

  function Table(sys: System, e: Event): Entries
    requires Prunes(sys, e)
  {
    if e.Completing? then CompletedEntries(sys.entries, sys.leases[e.lease], e.response, e.now) else sys.entries
  }

  /**
   The caller's side of the bargain: whenever the table is pruned, a cancelled record whose lease is
   still held is within the retention, and fewer than the capacity of others are as recent.
   */
  ghost predicate Timely(sys: System, e: Event) {
    Prunes(sys, e) ==>
      forall key :: key in Table(sys, e) && Table(sys, e)[key].Cancelled? && Held(sys, key) ==>
        Retained(Table(sys, e), e.now, key)
  }

  /** The pruning spares every cancelled record whose lease is held. */
  ghost predicate Prompt(sys: System, e: Event) {
    !e.Dropping? ==>
      forall key :: key in e.gone && key in sys.entries && sys.entries[key].Cancelled? ==> !Held(sys, key)
  }

  ghost predicate RunningIsLeased(sys: System) {
    forall key :: key in sys.entries && sys.entries[key].Running? ==>
      sys.entries[key].lease in sys.leases && sys.leases[sys.entries[key].lease] == key
  }

  ghost predicate LeaseIsLive(sys: System, lease: nat)
    requires lease in sys.leases
  {
    lease < sys.next && sys.leases[lease] in sys.entries &&
    (sys.entries[sys.leases[lease]] == Running(lease) || sys.entries[sys.leases[lease]].Cancelled?)
  }

  ghost predicate LeasesDiffer(leases: map<nat, TransferKey>) {
    forall a, b :: a in leases && b in leases && leases[a] == leases[b] ==> a == b
  }

  ghost predicate Inv(sys: System) {
    RunningIsLeased(sys) && LeasesDiffer(sys.leases) &&
    forall lease :: lease in sys.leases ==> LeaseIsLive(sys, lease)
  }

  /** No key has two leases, and no held key is free for another claim. */
  ghost predicate SingleOwners(sys: System) {
    LeasesDiffer(sys.leases) && forall lease :: lease in sys.leases ==> sys.leases[lease] in sys.entries
  }

  lemma LeasedAreNotPruned(sys: System, e: Event, lease: nat)
    requires Inv(sys) && Enabled(sys, e) && Prompt(sys, e) && !e.Dropping?
    requires lease in sys.leases && !(e.Completing? && lease == e.lease)
    ensures sys.leases[lease] !in e.gone
  {
    var key := sys.leases[lease];
    assert LeaseIsLive(sys, lease);
    if e.Completing? {
      assert key != sys.leases[e.lease];
    }
    assert Held(sys, key);
  }

  lemma PrunedKeepsInv(sys: System, gone: set<TransferKey>)
    requires Inv(sys) && forall lease :: lease in sys.leases ==> sys.leases[lease] !in gone
    ensures Inv(sys.(entries := sys.entries - gone))
  {
    forall lease | lease in sys.leases ensures LeaseIsLive(sys.(entries := sys.entries - gone), lease) {
      assert LeaseIsLive(sys, lease);
    }
  }

  lemma NewOwnerKeepsInv(sys: System, key: TransferKey)
    requires Inv(sys) && key !in sys.entries
    ensures Inv(System(sys.entries[key := Running(sys.next)], sys.leases[sys.next := key], sys.next + 1))
    ensures !Held(sys, key)
  {
    var next := System(sys.entries[key := Running(sys.next)], sys.leases[sys.next := key], sys.next + 1);
    forall lease | lease in sys.leases
      ensures lease < sys.next && sys.leases[lease] != key && LeaseIsLive(next, lease)
    {
      assert LeaseIsLive(sys, lease);
    }
  }

  lemma ClaimingKeepsInv(sys: System, e: Event)
    requires e.Claiming? && Inv(sys) && Enabled(sys, e) && Prompt(sys, e)
    ensures Inv(Next(sys, e))
    ensures e.key !in sys.entries - e.gone ==> !Held(sys, e.key)
  {
    forall lease | lease in sys.leases ensures sys.leases[lease] !in e.gone {
      LeasedAreNotPruned(sys, e, lease);
    }
    var pruned := sys.(entries := sys.entries - e.gone);
    PrunedKeepsInv(sys, e.gone);
    if e.key !in pruned.entries {
      NewOwnerKeepsInv(pruned, e.key);
      assert Held(sys, e.key) == Held(pruned, e.key);
    }
  }

  lemma CancellingKeepsInv(sys: System, e: Event)
    requires e.Cancelling? && Inv(sys) && Enabled(sys, e) && Prompt(sys, e)
    ensures Inv(Next(sys, e))
  {
    forall lease | lease in sys.leases ensures LeaseIsLive(Next(sys, e), lease) {
      assert LeaseIsLive(sys, lease);
      LeasedAreNotPruned(sys, e, lease);
    }
  }

  lemma CompletingKeepsInv(sys: System, e: Event)
    requires e.Completing? && Inv(sys) && Enabled(sys, e) && Prompt(sys, e)
    ensures Inv(Next(sys, e))
  {
    forall lease | lease in sys.leases && lease != e.lease ensures LeaseIsLive(Next(sys, e), lease) {
      assert LeaseIsLive(sys, lease) && sys.leases[lease] != sys.leases[e.lease];
      LeasedAreNotPruned(sys, e, lease);
    }
  }

  lemma StepKeepsInv(sys: System, e: Event)
    requires Inv(sys) && Enabled(sys, e) && Prompt(sys, e)
    ensures Inv(Next(sys, e))
  {
    match e
    case Claiming(_, _, _) => ClaimingKeepsInv(sys, e);
    case Cancelling(_, _, _) => CancellingKeepsInv(sys, e);
    case Completing(_, _, _, _) => CompletingKeepsInv(sys, e);
    case Dropping(_) =>
      forall lease | lease in sys.leases && lease != e.lease ensures LeaseIsLive(Next(sys, e), lease) {
        assert LeaseIsLive(sys, lease) && sys.leases[lease] != sys.leases[e.lease];
      }
  }

  /** A pruning that takes the cancelled record of a held lease frees the key or gives it away again. */
  lemma LatePruningFreesAKey(sys: System, e: Event, lease: nat)
    requires Inv(sys) && Enabled(sys, e) && !e.Dropping?
    requires lease in sys.leases && sys.leases[lease] in e.gone && sys.entries[sys.leases[lease]].Cancelled?
    ensures !SingleOwners(Next(sys, e))
  {
    var next, key := Next(sys, e), sys.leases[lease];
    assert LeaseIsLive(sys, lease);
    assert e.Completing? ==> lease != e.lease;
    assert lease in next.leases && next.leases[lease] == key;
    if key in next.entries {
      assert e.Claiming? && e.key == key && next.leases[sys.next] == key;
    }
  }

  /** Exactly when its pruning is prompt does an event keep one owner per key, and the invariant. */
  lemma PromptIsExact(sys: System, e: Event)
    requires Inv(sys) && Enabled(sys, e)
    ensures Prompt(sys, e) <==> Inv(Next(sys, e))
    ensures Prompt(sys, e) <==> SingleOwners(Next(sys, e))
  {
    if Prompt(sys, e) {
      StepKeepsInv(sys, e);
      assert forall lease :: lease in Next(sys, e).leases ==> LeaseIsLive(Next(sys, e), lease);
    } else {
      var key :| key in e.gone && key in sys.entries && sys.entries[key].Cancelled? && Held(sys, key);
      var lease :| lease in sys.leases && sys.leases[lease] == key;
      LatePruningFreesAKey(sys, e, lease);
      InvMeansSingleOwners(Next(sys, e));
    }
  }

  lemma InvMeansSingleOwners(sys: System)
    ensures Inv(sys) ==> SingleOwners(sys)
  {
    assert Inv(sys) ==> forall lease :: lease in sys.leases ==> LeaseIsLive(sys, lease);
  }

  lemma TimelyIsPrompt(sys: System, e: Event)
    requires Enabled(sys, e) && Timely(sys, e)
    ensures Prompt(sys, e)
  {
    if Prunes(sys, e) {
      forall key | key in sys.entries && sys.entries[key].Cancelled? && Held(sys, key) ensures key !in e.gone
      {
        assert Table(sys, e)[key] == sys.entries[key];
        RetainedIsNotPruned(Table(sys, e), e.now, e.gone, key);
      }
    }
  }

  /** The same event with another choice of what the pruning removes. */
  function Removing(e: Event, gone: set<TransferKey>): Event {
    match e
    case Claiming(key, now, _) => Claiming(key, now, gone)
    case Cancelling(key, now, _) => Cancelling(key, now, gone)
    case Completing(lease, response, now, _) => Completing(lease, response, now, gone)
    case Dropping(lease) => Dropping(lease)
  }

  /** Whatever the pruning removes, every key keeps one owner. */
  ghost predicate AlwaysSingle(sys: System, e: Event) {
    forall gone :: Enabled(sys, Removing(e, gone)) ==> SingleOwners(Next(sys, Removing(e, gone)))
  }

  lemma RemovingIsTimely(sys: System, e: Event, gone: set<TransferKey>)
    requires Timely(sys, e)
    ensures Timely(sys, Removing(e, gone))
  {
    assert Prunes(sys, Removing(e, gone)) == Prunes(sys, e);
    assert Prunes(sys, e) ==> Table(sys, Removing(e, gone)) == Table(sys, e);
  }

  lemma TimelyIsAlwaysSingle(sys: System, e: Event)
    requires Inv(sys) && Enabled(sys, e) && Timely(sys, e)
    ensures AlwaysSingle(sys, e)
  {
    forall gone | Enabled(sys, Removing(e, gone)) ensures SingleOwners(Next(sys, Removing(e, gone))) {
      RemovingIsTimely(sys, e, gone);
      TimelyIsPrompt(sys, Removing(e, gone));
      PromptIsExact(sys, Removing(e, gone));
    }
  }

  lemma RemovingIsEnabled(sys: System, e: Event, gone: set<TransferKey>)
    requires Enabled(sys, e) && Prunes(sys, e) && IsPruning(Table(sys, e), e.now, gone)
    ensures Enabled(sys, Removing(e, gone))
  {
  }

  lemma OnlyTheCompletedDiffers(sys: System, e: Event, key: TransferKey)
    requires Prunes(sys, e) && key in Table(sys, e) && Table(sys, e)[key].Cancelled?
    ensures key in sys.entries && sys.entries[key] == Table(sys, e)[key]
  {
  }

  lemma LateCanFreeAKey(sys: System, e: Event) returns (gone: set<TransferKey>)
    requires Inv(sys) && Enabled(sys, e) && !Timely(sys, e)
    ensures Enabled(sys, Removing(e, gone)) && !SingleOwners(Next(sys, Removing(e, gone)))
  {
    var key :| key in Table(sys, e) && Table(sys, e)[key].Cancelled? && Held(sys, key) &&
               !Retained(Table(sys, e), e.now, key);
    gone := OthersCanBePruned(Table(sys, e), e.now, key);
    RemovingIsEnabled(sys, e, gone);
    OnlyTheCompletedDiffers(sys, e, key);
    var late := Removing(e, gone);
    assert late.gone == gone && !Prompt(sys, late);
    PromptIsExact(sys, late);
  }

  /** The bargain is exact: whatever the pruning removes keeps one owner per key if and only if the event is timely. */
  lemma TimelyIsExact(sys: System, e: Event)
    requires Inv(sys) && Enabled(sys, e)
    ensures Timely(sys, e) <==> AlwaysSingle(sys, e)
  {
    if Timely(sys, e) {
      TimelyIsAlwaysSingle(sys, e);
    } else {
      var gone := LateCanFreeAKey(sys, e);
    }
  }

  // ---------- every run ----------

  ghost predicate Possible(sys: System, events: seq<Event>)
    decreases |events|
  {
    events == [] || (Enabled(sys, events[0]) && Possible(Next(sys, events[0]), events[1..]))
  }

  ghost function After(sys: System, events: seq<Event>): System
    requires Possible(sys, events)
    decreases |events|
  {
    if events == [] then sys else After(Next(sys, events[0]), events[1..])
  }

  ghost predicate AllTimely(sys: System, events: seq<Event>)
    requires Possible(sys, events)
    decreases |events|
  {
    events == [] || (Timely(sys, events[0]) && AllTimely(Next(sys, events[0]), events[1..]))
  }

  ghost predicate AllPrompt(sys: System, events: seq<Event>)
    requires Possible(sys, events)
    decreases |events|
  {
    events == [] || (Prompt(sys, events[0]) && AllPrompt(Next(sys, events[0]), events[1..]))
  }

  /** One owner per key at every moment of a run. */
  ghost predicate SingleThroughout(sys: System, events: seq<Event>)
    requires Possible(sys, events)
    decreases |events|
  {
    SingleOwners(sys) && (events == [] || SingleThroughout(Next(sys, events[0]), events[1..]))
  }

  lemma {:induction false} TimelyRunsKeepInv(sys: System, events: seq<Event>)
    requires Inv(sys) && Possible(sys, events) && AllTimely(sys, events)
    ensures Inv(After(sys, events)) && AllPrompt(sys, events)
    decreases |events|
  {
    if events != [] {
      TimelyIsPrompt(sys, events[0]);
      StepKeepsInv(sys, events[0]);
      TimelyRunsKeepInv(Next(sys, events[0]), events[1..]);
    }
  }

  lemma {:induction false} RunsAreSingleExactly(sys: System, events: seq<Event>)
    requires Inv(sys) && Possible(sys, events)
    ensures AllPrompt(sys, events) <==> SingleThroughout(sys, events)
    decreases |events|
  {
    InvMeansSingleOwners(sys);
    if events != [] {
      PromptIsExact(sys, events[0]);
      if Prompt(sys, events[0]) {
        RunsAreSingleExactly(Next(sys, events[0]), events[1..]);
      }
    }
  }

  /** Every key has one owner at every moment of a run exactly when no pruning takes the record of a held lease. */
  lemma WhenOwnersAreSingle(events: seq<Event>)
    requires Possible(EMPTY, events)
    ensures AllPrompt(EMPTY, events) <==> SingleThroughout(EMPTY, events)
  {
    RunsAreSingleExactly(EMPTY, events);
  }

  /**
   At most one execution per key in every run whose leases are dropped in time: there is one owner per
   key throughout, a running entry has exactly one lease, and a claim becomes an owner only if the key
   has no lease.
   */
  lemma OneOwnerPerKey(events: seq<Event>, key: TransferKey, now: int, gone: set<TransferKey>)
    requires Possible(EMPTY, events) && AllTimely(EMPTY, events)
    requires Enabled(After(EMPTY, events), Claiming(key, now, gone))
    requires Timely(After(EMPTY, events), Claiming(key, now, gone))
    ensures SingleThroughout(EMPTY, events)
    ensures var sys := After(EMPTY, events);
      && (forall k :: k in sys.entries && sys.entries[k].Running? ==> Held(sys, k))
      && (ClaimAnswer(sys, key, gone).Some? && ClaimAnswer(sys, key, gone).value.Owner? ==> !Held(sys, key))
  {
    TimelyRunsKeepInv(EMPTY, events);
    RunsAreSingleExactly(EMPTY, events);
    var sys, claim := After(EMPTY, events), Claiming(key, now, gone);
    TimelyIsPrompt(sys, claim);
    ClaimingKeepsInv(sys, claim);
    forall k | k in sys.entries && sys.entries[k].Running? ensures Held(sys, k) {
      assert sys.leases[sys.entries[k].lease] == k;
    }
  }

  // ---------- a lease that is too slow ----------

  /** Nothing has to go from a table of one entry in force. */
  lemma OneEntryStays(entries: Entries, key: TransferKey, now: int)
    requires entries.Keys <= {key} && (key in entries ==> Fresh(entries[key], now))
    ensures IsPruning(entries, now, {})
  {
    assert Outdated(entries, now) == {} && entries - {} == entries;
    SubsetSize(Terminals(entries), {key});
    PruningIs(entries, now, {});
    assert {} + {} == Outdated(entries, now);
  }

  lemma SlowLeaseCancelled(key: TransferKey)
    requires ValidId(key.id)
    ensures var claim, cancel := Claiming(key, 0, {}), Cancelling(key, 0, {});
      && Enabled(EMPTY, claim) && Enabled(Next(EMPTY, claim), cancel)
      && Next(Next(EMPTY, claim), cancel) == System(map[key := Cancelled(0)], map[0 := key], 1)
  {
    var s1 := Next(EMPTY, Claiming(key, 0, {}));
    OneEntryStays(EMPTY.entries, key, 0);
    assert s1 == System(map[key := Running(0)], map[0 := key], 1);
    OneEntryStays(s1.entries, key, 0);
    assert s1.entries - {} == s1.entries;
  }

  lemma SlowLeaseIsPruned(key: TransferKey)
    ensures IsPruning(map[key := Cancelled(0)], TERMINAL_RETENTION, {key})
  {
    var entries: Entries := map[key := Cancelled(0)];
    assert Outdated(entries, TERMINAL_RETENTION) == {key};
    assert entries - {key} == map[];
    assert Terminals(map[]) == {};
    PruningIs(entries, TERMINAL_RETENTION, {});
    assert {key} + {} == {key};
  }

  /** The key is claimed, cancelled, claimed again when its record is outdated, and the first lease completes. */
  function SlowLease(key: TransferKey, response: Response): seq<Event> {
    [Claiming(key, 0, {}), Cancelling(key, 0, {}), Claiming(key, TERMINAL_RETENTION, {key}),
     Completing(0, response, TERMINAL_RETENTION, {})]
  }

  lemma PossibleMore(sys: System, e: Event, rest: seq<Event>)
    requires Enabled(sys, e) && Possible(Next(sys, e), rest)
    ensures Possible(sys, [e] + rest) && After(sys, [e] + rest) == After(Next(sys, e), rest)
  {
    assert ([e] + rest)[1..] == rest;
  }

  lemma PossibleFour(sys: System, a: Event, b: Event, c: Event, d: Event)
    requires Enabled(sys, a) && Enabled(Next(sys, a), b) && Enabled(Next(Next(sys, a), b), c)
    requires Enabled(Next(Next(Next(sys, a), b), c), d)
    ensures Possible(sys, [a, b, c, d]) && After(sys, [a, b, c, d]) == Next(Next(Next(Next(sys, a), b), c), d)
  {
    var s1 := Next(sys, a);
    var s2 := Next(s1, b);
    var s3 := Next(s2, c);
    assert [a, b, c, d] == [a] + [b, c, d] && [b, c, d] == [b] + [c, d] && [c, d] == [c] + [d] && [d] == [d] + [];
    PossibleMore(s3, d, []);
    PossibleMore(s2, c, [d]);
    PossibleMore(s1, b, [c, d]);
    PossibleMore(sys, a, [b, c, d]);
  }

  lemma SlowLeaseOwnedAgain(key: TransferKey)
    requires ValidId(key.id)
    ensures var s2, late :=
        System(map[key := Cancelled(0)], map[0 := key], 1), Claiming(key, TERMINAL_RETENTION, {key});
      && Enabled(s2, late) && !Timely(s2, late)
      && Next(s2, late) == System(map[key := Running(1)], map[0 := key, 1 := key], 2)
  {
    var s2 := System(map[key := Cancelled(0)], map[0 := key], 1);
    SlowLeaseIsPruned(key);
    assert s2.leases[0] == key && Held(s2, key);
    assert s2.entries - {key} == map[];
  }

  lemma SlowLeaseCompletes(key: TransferKey, response: Response)
    ensures var s3, done := System(map[key := Running(1)], map[0 := key, 1 := key], 2),
        Completing(0, response, TERMINAL_RETENTION, {});
      Enabled(s3, done) && Next(s3, done).entries == map[key := Complete(response, TERMINAL_RETENTION)]
  {
    var completed: Entries := map[key := Complete(response, TERMINAL_RETENTION)];
    var running: Entries := map[key := Running(1)];
    assert CompletedEntries(running, key, response, TERMINAL_RETENTION) == completed;
    OneEntryStays(completed, key, TERMINAL_RETENTION);
    assert completed - {} == completed;
  }

  /**
   Why leases must be dropped in time: in this run a cancelled record is pruned while its lease is held,
   the key is owned twice, and the old lease then completes the new owner's entry.
   */
  lemma SlowLeaseOwnsTwice(key: TransferKey, response: Response)
    requires ValidId(key.id)
    ensures var run := SlowLease(key, response);
      var s2 := Next(Next(EMPTY, run[0]), run[1]);
      var s3 := Next(s2, run[2]);
      && Possible(EMPTY, run) && !Timely(s2, run[2])
      && s3.leases == map[0 := key, 1 := key] && s3.entries == map[key := Running(1)]
      && After(EMPTY, run).entries == map[key := Complete(response, TERMINAL_RETENTION)]
  {
    var run := SlowLease(key, response);
    SlowLeaseCancelled(key);
    SlowLeaseOwnedAgain(key);
    SlowLeaseCompletes(key, response);
    PossibleFour(EMPTY, run[0], run[1], run[2], run[3]);
  }

  // ---------- responses and bounds ----------

  lemma CompleteStays(sys: System, e: Event, key: TransferKey)
    requires Enabled(sys, e) && key in sys.entries && sys.entries[key].Complete?
    requires !e.Dropping? ==> key !in e.gone
    ensures key in Next(sys, e).entries && Next(sys, e).entries[key] == sys.entries[key]
  {
  }

  /** The first response is the response: until a completed entry is pruned nothing changes it. */
  lemma {:induction false} FirstResponseStays(sys: System, events: seq<Event>, key: TransferKey, now: int,
                                              gone: set<TransferKey>)
    requires Possible(sys, events) && key in sys.entries && sys.entries[key].Complete? && ValidId(key.id)
    requires forall e :: e in events && !e.Dropping? ==> key !in e.gone
    requires key !in gone
    ensures ClaimAnswer(After(sys, events), key, gone) == Some(Completed(sys.entries[key].response))
    decreases |events|
  {
    if events != [] {
      assert events[0] in events;
      CompleteStays(sys, events[0], key);
      FirstResponseStays(Next(sys, events[0]), events[1..], key, now, gone);
    }
  }

  lemma PruningBounds(entries: Entries, now: int, gone: set<TransferKey>)
    requires IsPruning(entries, now, gone)
    ensures |Terminals(entries - gone)| <= TERMINAL_CAPACITY
  {
    var outdated := Outdated(entries, now);
    assert Terminals(entries - gone) == Terminals(entries - outdated) - (gone - outdated);
  }

  /** A cancellation that finds its entry running when the pruning has left a full set of terminal ones. */
  predicate Overfills(sys: System, e: Event) {
    e.Cancelling? &&
    var left := sys.entries - e.gone;
    e.key in left && left[e.key].Running? && |Terminals(left)| == TERMINAL_CAPACITY
  }

  lemma CancellingAdds(sys: System, e: Event)
    requires e.Cancelling? && Enabled(sys, e)
    ensures |Terminals(Next(sys, e).entries)| <= TERMINAL_CAPACITY + 1
    ensures |Terminals(Next(sys, e).entries)| == TERMINAL_CAPACITY + 1 <==> Overfills(sys, e)
  {
    var left, next := sys.entries - e.gone, Next(sys, e);
    PruningBounds(sys.entries, e.now, e.gone);
    if e.key in left && left[e.key].Running? {
      assert Terminals(next.entries) == Terminals(left) + {e.key};
    } else {
      assert next.entries == left;
    }
  }

  /** Any event but a cancellation prunes down to the capacity or leaves the terminal entries alone. */
  lemma OthersPruneOrKeep(sys: System, e: Event)
    requires !e.Cancelling? && Enabled(sys, e)
    ensures if Prunes(sys, e) then |Terminals(Next(sys, e).entries)| <= TERMINAL_CAPACITY
            else Terminals(Next(sys, e).entries) == Terminals(sys.entries)
  {
    match e
    case Claiming(key, now, gone) =>
      if Prunes(sys, e) {
        PruningBounds(sys.entries, now, gone);
        ClaimingAddsNone(sys, key, gone);
      }
    case Completing(lease, response, now, gone) =>
      if Prunes(sys, e) {
        PruningBounds(Table(sys, e), now, gone);
      } else {
        assert sys.entries - {} == sys.entries;
      }
    case Dropping(lease) =>
  }

  lemma ClaimingAddsNone(sys: System, key: TransferKey, gone: set<TransferKey>)
    requires ValidId(key.id)
    ensures Terminals(Claimed(sys, key, gone).entries) == Terminals(sys.entries - gone)
  {
  }

  /**
   Terminal records stay bounded by one more than the capacity, and reach that exactly when a running
   entry is cancelled while the pruning leaves a full set, or when it was reached and nothing is pruned.
   */
  lemma WhenTerminalsExceed(sys: System, e: Event)
    requires Enabled(sys, e) && |Terminals(sys.entries)| <= TERMINAL_CAPACITY + 1
    ensures |Terminals(Next(sys, e).entries)| <= TERMINAL_CAPACITY + 1
    ensures |Terminals(Next(sys, e).entries)| == TERMINAL_CAPACITY + 1 <==>
            Overfills(sys, e) || (|Terminals(sys.entries)| == TERMINAL_CAPACITY + 1 && !Prunes(sys, e))
  {
    if e.Cancelling? {
      CancellingAdds(sys, e);
    } else {
      OthersPruneOrKeep(sys, e);
    }
  }

  lemma {:induction false} RunKeepsBound(sys: System, events: seq<Event>)
    requires Possible(sys, events) && |Terminals(sys.entries)| <= TERMINAL_CAPACITY + 1
    ensures |Terminals(After(sys, events).entries)| <= TERMINAL_CAPACITY + 1
    decreases |events|
  {
    if events != [] {
      WhenTerminalsExceed(sys, events[0]);
      RunKeepsBound(Next(sys, events[0]), events[1..]);
    }
  }

  /** No run ever holds more than one terminal record beyond the capacity. */
  lemma TerminalsAreBounded(events: seq<Event>)
    requires Possible(EMPTY, events)
    ensures |Terminals(After(EMPTY, events).entries)| <= TERMINAL_CAPACITY + 1
  {
    assert Terminals(EMPTY.entries) == {};
    RunKeepsBound(EMPTY, events);
  }

  // ---------- the bound is reached ----------

  function NumberedKey(n: nat): TransferKey {
    TransferKey(n, "POST", "upload", "gog_a")
  }

  /** The registry when the first `n` of these keys have completed at time 0. */
  function Filled(n: nat): System {
    System(map i | 0 <= i < n :: NumberedKey(i) := Complete([], 0), map[], n)
  }

  /** Fill the registry from `n` keys on, and then claim and cancel one more. */
  function Filling(n: nat): seq<Event>
    requires n <= TERMINAL_CAPACITY
    decreases TERMINAL_CAPACITY - n
  {
    if n == TERMINAL_CAPACITY then [Claiming(NumberedKey(n), 0, {}), Cancelling(NumberedKey(n), 0, {})]
    else [Claiming(NumberedKey(n), 0, {}), Completing(n, [], 0, {})] + Filling(n + 1)
  }

  lemma {:induction false} FilledTerminals(n: nat)
    ensures |Terminals(Filled(n).entries)| == n
    decreases n
  {
    if n == 0 {
      assert Terminals(Filled(0).entries) == {};
    } else {
      FilledTerminals(n - 1);
      assert Terminals(Filled(n).entries) == Terminals(Filled(n - 1).entries) + {NumberedKey(n - 1)};
    }
  }

  /** A small table of fresh entries loses nothing. */
  lemma NothingToPrune(entries: Entries)
    requires |Terminals(entries)| <= TERMINAL_CAPACITY && forall key :: key in entries ==> Fresh(entries[key], 0)
    ensures IsPruning(entries, 0, {})
  {
    assert Outdated(entries, 0) == {} && entries - {} == entries;
    assert Terminals(entries) - {} == Terminals(entries);
    PruningIs(entries, 0, {});
    assert Outdated(entries, 0) + {} == {};
  }

  function FilledAndClaimed(n: nat): System {
    System(Filled(n).entries[NumberedKey(n) := Running(n)], map[n := NumberedKey(n)], n + 1)
  }

  lemma FillingClaims(n: nat)
    requires n <= TERMINAL_CAPACITY
    ensures var e := Claiming(NumberedKey(n), 0, {});
      Enabled(Filled(n), e) && Next(Filled(n), e) == FilledAndClaimed(n)
    ensures Terminals(FilledAndClaimed(n).entries) == Terminals(Filled(n).entries)
  {
    FilledTerminals(n);
    NothingToPrune(Filled(n).entries);
    assert NumberedKey(n) !in Filled(n).entries;
    assert Filled(n).entries - {} == Filled(n).entries;
  }

  lemma OneMoreFilled(n: nat)
    ensures CompletedEntries(FilledAndClaimed(n).entries, NumberedKey(n), [], 0) == Filled(n + 1).entries
  {
    assert Filled(n).entries[NumberedKey(n) := Complete([], 0)] == Filled(n + 1).entries;
  }

  lemma FillingCompletes(n: nat)
    requires n < TERMINAL_CAPACITY
    ensures var e := Completing(n, [], 0, {});
      Enabled(FilledAndClaimed(n), e) && Next(FilledAndClaimed(n), e) == Filled(n + 1)
  {
    FilledTerminals(n + 1);
    NothingToPrune(Filled(n + 1).entries);
    OneMoreFilled(n);
    assert Filled(n + 1).entries - {} == Filled(n + 1).entries;
    assert FilledAndClaimed(n).leases - {n} == map[];
  }

  lemma FillingOverflows()
    ensures var claimed, e := FilledAndClaimed(TERMINAL_CAPACITY), Cancelling(NumberedKey(TERMINAL_CAPACITY), 0, {});
      Enabled(claimed, e) && |Terminals(Next(claimed, e).entries)| == TERMINAL_CAPACITY + 1
  {
    var claimed, e := FilledAndClaimed(TERMINAL_CAPACITY), Cancelling(NumberedKey(TERMINAL_CAPACITY), 0, {});
    FillingClaims(TERMINAL_CAPACITY);
    FilledTerminals(TERMINAL_CAPACITY);
    NothingToPrune(claimed.entries);
    assert claimed.entries - {} == claimed.entries;
    CancellingAdds(claimed, e);
  }

  lemma {:induction false} FillingReaches(n: nat)
    requires n <= TERMINAL_CAPACITY
    ensures Possible(Filled(n), Filling(n))
    ensures |Terminals(After(Filled(n), Filling(n)).entries)| == TERMINAL_CAPACITY + 1
    decreases TERMINAL_CAPACITY - n
  {
    FillingClaims(n);
    var claimed := FilledAndClaimed(n);
    if n == TERMINAL_CAPACITY {
      FillingOverflows();
      TwoEvents(Filled(n), claimed, Next(claimed, Filling(n)[1]), Filling(n)[0], Filling(n)[1], []);
      assert Filling(n) == [Filling(n)[0], Filling(n)[1]] + [];
    } else {
      FillingCompletes(n);
      FillingReaches(n + 1);
      TwoEvents(Filled(n), claimed, Filled(n + 1), Filling(n)[0], Filling(n)[1], Filling(n + 1));
    }
  }

  lemma TwoEvents(s0: System, s1: System, s2: System, e: Event, f: Event, rest: seq<Event>)
    requires Enabled(s0, e) && Next(s0, e) == s1 && Enabled(s1, f) && Next(s1, f) == s2 && Possible(s2, rest)
    ensures Possible(s0, [e, f] + rest) && After(s0, [e, f] + rest) == After(s2, rest)
  {
    assert ([e, f] + rest)[1..] == [f] + rest && ([f] + rest)[1..] == rest;
    assert Possible(s1, [f] + rest) && After(s1, [f] + rest) == After(s2, rest);
  }

  /** The bound is sharp: this run of claims, completions and one cancellation holds one record beyond the capacity. */
  lemma SixtyFiveTerminals()
    ensures Possible(EMPTY, Filling(0))
    ensures |Terminals(After(EMPTY, Filling(0)).entries)| == TERMINAL_CAPACITY + 1
  {
    assert Filled(0) == EMPTY;
    FillingReaches(0);
  }

  // ---------- what a client sees ----------

  /** Which ids are valid: one of two prefixes, and then letters, digits and underscores, at most 128 in all. */
  lemma WhenIdsAreValid(suffix: string, id: string)
    ensures ValidId("upload_" + suffix) <==>
            1 <= |suffix| <= 121 && forall i :: 0 <= i < |suffix| ==> IdCharacter(suffix[i])
    ensures ValidId("gog_" + suffix) <==>
            1 <= |suffix| <= 124 && forall i :: 0 <= i < |suffix| ==> IdCharacter(suffix[i])
    ensures ValidId(id) ==> "upload_" <= id || "gog_" <= id
  {
    SuffixCharacters("upload_", suffix);
    SuffixCharacters("gog_", suffix);
    assert ("upload_" + suffix)[..7] == "upload_" && ("upload_" + suffix)[0] == 'u';
    assert ("gog_" + suffix)[..4] == "gog_" && ("gog_" + suffix)[0] == 'g';
    assert |id| > 7 && id[..7] == "upload_" ==> "upload_" <= id;
    assert |id| > 4 && id[..4] == "gog_" ==> "gog_" <= id;
  }

  lemma SuffixCharacters(prefix: string, suffix: string)
    requires forall i :: 0 <= i < |prefix| ==> IdCharacter(prefix[i])
    ensures (forall i :: 0 <= i < |prefix + suffix| ==> IdCharacter((prefix + suffix)[i])) <==>
            forall i :: 0 <= i < |suffix| ==> IdCharacter(suffix[i])
  {
    var id := prefix + suffix;
    if forall i :: 0 <= i < |id| ==> IdCharacter(id[i]) {
      forall i | 0 <= i < |suffix| ensures IdCharacter(suffix[i]) {
        assert id[|prefix| + i] == suffix[i];
      }
    }
  }

  /** A claim on a free key is its owner's; until that lease ends, a second one is told that it runs. */
  lemma ClaimsInTurn(sys: System, key: TransferKey, gone: set<TransferKey>, later: set<TransferKey>)
    requires ValidId(key.id) && key !in sys.entries - gone && key !in later
    ensures ClaimAnswer(sys, key, gone) == Some(Owner(sys.next))
    ensures var s1 := Claimed(sys, key, gone);
      && s1.entries[key] == Running(sys.next) && s1.leases == sys.leases[sys.next := key]
      && ClaimAnswer(s1, key, later) == Some(AlreadyRunning)
      && Claimed(s1, key, later).leases == s1.leases
  {
  }

  /** An invalid id is refused and changes nothing, not even by pruning. */
  lemma InvalidIdsAreRefused(sys: System, key: TransferKey, now: int, gone: set<TransferKey>)
    requires !ValidId(key.id) && Enabled(sys, Claiming(key, now, gone))
    ensures ClaimAnswer(sys, key, gone) == None && Next(sys, Claiming(key, now, gone)) == sys
  {
  }

  /** After a lease is dropped without a response the key is free, and the next claim owns it. */
  lemma RetryAfterDrop(sys: System, lease: nat, gone: set<TransferKey>)
    requires lease in sys.leases && ValidId(sys.leases[lease].id)
    requires var key := sys.leases[lease]; key in sys.entries && sys.entries[key].Running?
    ensures var next := Next(sys, Dropping(lease));
      && sys.leases[lease] !in next.entries && lease !in next.leases
      && ClaimAnswer(next, sys.leases[lease], gone) == Some(Owner(next.next))
  {
  }

  /** A completed lease answers every later claim with its response, and can no longer be cancelled. */
  lemma RetryAfterCompletion(sys: System, lease: nat, response: Response, now: int, gone: set<TransferKey>,
                             later: set<TransferKey>)
    requires lease in sys.leases && ValidId(sys.leases[lease].id) && sys.leases[lease] !in gone + later
    requires var key := sys.leases[lease]; key in sys.entries && sys.entries[key].Running?
    ensures var next, key := Next(sys, Completing(lease, response, now, gone)), sys.leases[lease];
      && key in next.entries && next.entries[key] == Complete(response, now) && lease !in next.leases
      && ClaimAnswer(next, key, later) == Some(Completed(response))
      && CancelAnswer(next, key, later) == AlreadyComplete
  {
  }

  /** A cancelled transfer stays cancelled: its lease can neither complete nor free it. */
  lemma CancelledStaysCancelled(sys: System, key: TransferKey, lease: nat, response: Response, now: int,
                                gone: set<TransferKey>, later: set<TransferKey>)
    requires ValidId(key.id) && key !in gone + later && key in sys.entries && sys.entries[key].Running?
    requires lease in sys.leases && sys.leases[lease] == key
    ensures CancelAnswer(sys, key, gone) == NowCancelled
    ensures var s1 := Next(sys, Cancelling(key, now, gone));
      && key in s1.entries && s1.entries[key] == Cancelled(now)
      && ClaimAnswer(s1, key, later) == Some(WasCancelled) && CancelAnswer(s1, key, later) == NowCancelled
      && Next(s1, Dropping(lease)).entries == s1.entries
      && Next(s1, Completing(lease, response, now, {})).entries == s1.entries
  {
    var s1 := Next(sys, Cancelling(key, now, gone));
    assert s1.entries - {} == s1.entries;
  }

  /** What a pruning takes: no running entry, every terminal one of an hour or more, and only the oldest of the rest. */
  lemma PruningTakes(entries: Entries, now: int, gone: set<TransferKey>, key: TransferKey)
    requires IsPruning(entries, now, gone) && key in entries
    ensures entries[key].Running? ==> key !in gone
    ensures !entries[key].Running? && now - At(entries[key]) >= 60 * 60 ==> key in gone
    ensures !entries[key].Running? && now - At(entries[key]) < 60 * 60 && key in gone ==>
      |Terminals(entries - gone)| == 64 &&
      forall k :: k in Terminals(entries - gone) ==> At(entries[key]) <= At(entries[k])
  {
    var outdated := Outdated(entries, now);
    var recent, dropped := entries - outdated, gone - outdated;
    assert key in gone && key !in outdated ==> key in dropped;
    assert Terminals(entries - gone) == Terminals(recent) - dropped;
    if key in dropped {
      var all := Terminals(recent);
      assert key in all && |all - {key}| == |all| - 1;
      SubsetSize(all - dropped, all - {key});
      forall k | k in Terminals(entries - gone) ensures At(entries[key]) <= At(entries[k]) {
        assert k in all - dropped && recent[k] == entries[k] && recent[key] == entries[key];
      }
    }
  }
}
