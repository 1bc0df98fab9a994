/**
 The password service: one semaphore bounds the requests that are active or waiting, the other the
 hash workers. A blocking worker keeps both permits even if its request is cancelled.
 */
module Passwords {

  const MAX_USIZE: nat := 0xFFFF_FFFF_FFFF_FFFF

  /** What a request holds: an admission slot, or a slot and a worker permit, or a worker that runs. */
  datatype Phase = Admitted | Permitted | Blocking

  type Requests = map<int, Phase>

  datatype Pools = Pools(freeWorkers: nat, freeSlots: nat)

  predicate HoldsWorker(p: Phase) {
    p != Admitted
  }

  function Workers(requests: Requests): set<int> {
    set r | r in requests && HoldsWorker(requests[r])
  }

  function Waiting(requests: Requests): set<int> {
    set r | r in requests && !HoldsWorker(requests[r])
  }

  datatype Event =
    | TryAdmit(r: int)
    | GetWorker(r: int)
    | Timeout(r: int)
    | StartBlocking(r: int)
    | DropRequest(r: int)
    | WorkDone(r: int)

  datatype System = System(pools: Pools, requests: Requests)

  predicate Enabled(sys: System, e: Event) {
    match e
    case TryAdmit(r) => r !in sys.requests
    case GetWorker(r) => r in sys.requests && sys.requests[r] == Admitted && sys.pools.freeWorkers > 0
    case Timeout(r) => r in sys.requests && sys.requests[r] == Admitted
    case StartBlocking(r) => r in sys.requests && sys.requests[r] == Permitted
    case DropRequest(r) => r in sys.requests
    case WorkDone(r) => r in sys.requests && sys.requests[r] == Blocking
  }

  function Released(sys: System, r: int): System
    requires r in sys.requests
  {
    System(Pools(sys.pools.freeWorkers + if HoldsWorker(sys.requests[r]) then 1 else 0, sys.pools.freeSlots + 1),
           sys.requests - {r})
  }

  /** Dropping a request whose worker runs leaves the worker and its permits alone. */
  function Next(sys: System, e: Event): System
    requires Enabled(sys, e)
  {
    match e
    case TryAdmit(r) =>
      if sys.pools.freeSlots == 0 then sys
      else System(sys.pools.(freeSlots := sys.pools.freeSlots - 1), sys.requests[r := Admitted])
    case GetWorker(r) =>
      System(sys.pools.(freeWorkers := sys.pools.freeWorkers - 1), sys.requests[r := Permitted])
    case Timeout(r) => Released(sys, r)
    case StartBlocking(r) => sys.(requests := sys.requests[r := Blocking])
    case DropRequest(r) => if sys.requests[r] == Blocking then sys else Released(sys, r)
    case WorkDone(r) => Released(sys, r)
  }

  /** The two semaphores, with the permits that requests and workers own. */
  class PasswordService {
    var freeWorkers: nat
    var freeSlots: nat
    var requests: Requests

    ghost function View(): System
      reads this
    {
      System(Pools(freeWorkers, freeSlots), requests)
    }

    constructor (maxConcurrency: nat, maxQueueDepth: nat)
      ensures View() == Initial(maxConcurrency, maxQueueDepth)
    {
      var workers := if maxConcurrency < 1 then 1 else maxConcurrency;
      freeWorkers := workers;
      freeSlots := if workers + maxQueueDepth > MAX_USIZE then MAX_USIZE else workers + maxQueueDepth;
      requests := map[];
    }

    /** Reserve a slot without waiting, or be told that the service is busy. */
    method Admit(r: int) returns (admitted: bool)
      requires r !in requests
      modifies this
      ensures View() == Next(old(View()), TryAdmit(r)) && (admitted <==> r in requests)
    {
      admitted := freeSlots > 0;
      if admitted {
        freeSlots := freeSlots - 1;
        requests := requests[r := Admitted];
      }
    }

    /** A worker permit is handed over in time, or the wait ends in a timeout that returns the slot. */
    method Acquire(r: int, inTime: bool) returns (permitted: bool)
      requires r in requests && requests[r] == Admitted
      modifies this
      ensures permitted <==> inTime && old(freeWorkers) > 0
      ensures View() == Next(old(View()), if permitted then GetWorker(r) else Timeout(r))
    {
      permitted := inTime && freeWorkers > 0;
      if permitted {
        freeWorkers := freeWorkers - 1;
        requests := requests[r := Permitted];
      } else {
        Release(r);
      }
    }

    /** The permits move into the blocking task. */
    method RunBlocking(r: int)
      requires r in requests && requests[r] == Permitted
      modifies this
      ensures View() == Next(old(View()), StartBlocking(r))
    {
      requests := requests[r := Blocking];
    }

    /** The request is cancelled: what it holds itself is returned, what its worker holds is not. */
    method Cancel(r: int)
      requires r in requests
      modifies this
      ensures View() == Next(old(View()), DropRequest(r))
    {
      if requests[r] != Blocking {
        Release(r);
      }
    }

    method FinishWork(r: int)
      requires r in requests && requests[r] == Blocking
      modifies this
      ensures View() == Next(old(View()), WorkDone(r))
    {
      Release(r);
    }

    method Release(r: int)
      requires r in requests
      modifies this
      ensures View() == Released(old(View()), r)
    {
      if requests[r] != Admitted {
        freeWorkers := freeWorkers + 1;
      }
      freeSlots := freeSlots + 1;
      requests := requests - {r};
    }
  }

  function Initial(maxConcurrency: nat, maxQueueDepth: nat): System {
    var workers := if maxConcurrency < 1 then 1 else maxConcurrency;
    System(Pools(workers, if workers + maxQueueDepth > MAX_USIZE then MAX_USIZE else workers + maxQueueDepth), map[])
  }

  /** Permits are never lost nor doubled. */
  ghost predicate Conserved(sys: System, workers: nat, slots: nat) {
    sys.pools.freeWorkers + |Workers(sys.requests)| == workers && sys.pools.freeSlots + |sys.requests| == slots
  }

  lemma ReleasingConserves(sys: System, r: int, workers: nat, slots: nat)
    requires Conserved(sys, workers, slots) && r in sys.requests
    ensures Conserved(Released(sys, r), workers, slots)
  {
    assert Workers(sys.requests - {r}) == Workers(sys.requests) - {r};
    assert (sys.requests - {r}).Keys == sys.requests.Keys - {r};
  }

  lemma StepConserves(sys: System, e: Event, workers: nat, slots: nat)
    requires Conserved(sys, workers, slots) && Enabled(sys, e)
    ensures Conserved(Next(sys, e), workers, slots)
  {
    var next := Next(sys, e);
    match e
    case TryAdmit(r) =>
      if sys.pools.freeSlots > 0 {
        assert Workers(next.requests) == Workers(sys.requests);
      }
    case GetWorker(r) =>
      assert Workers(next.requests) == Workers(sys.requests) + {r} && next.requests.Keys == sys.requests.Keys;
    case StartBlocking(r) =>
      assert Workers(next.requests) == Workers(sys.requests) && next.requests.Keys == sys.requests.Keys;
    case _ => ReleasingConserves(sys, e.r, workers, slots);
  }

  ghost predicate Allowed(sys: System, events: seq<Event>)
    decreases |events|
  {
    events == [] || (Enabled(sys, events[0]) && Allowed(Next(sys, events[0]), events[1..]))
  }

  ghost function After(sys: System, events: seq<Event>): System
    requires Allowed(sys, events)
    decreases |events|
  {
    if events == [] then sys else After(Next(sys, events[0]), events[1..])
  }

  lemma {:induction false} RunConserves(sys: System, events: seq<Event>, workers: nat, slots: nat)
    requires Conserved(sys, workers, slots) && Allowed(sys, events)
    ensures Conserved(After(sys, events), workers, slots)
    decreases |events|
  {
    if events != [] {
      StepConserves(sys, events[0], workers, slots);
      RunConserves(Next(sys, events[0]), events[1..], workers, slots);
    }
  }

  /**
   In every run with timeouts, cancelled waits and requests cancelled during blocking work: free plus
   held permits are the two capacities, at most c workers run, when c run at most q requests wait, and
   a request is refused exactly when c + q slots are held.
   */
  lemma PermitsAreConserved(maxConcurrency: nat, maxQueueDepth: nat, events: seq<Event>)
    requires Allowed(Initial(maxConcurrency, maxQueueDepth), events)
    requires (if maxConcurrency < 1 then 1 else maxConcurrency) + maxQueueDepth <= MAX_USIZE
    ensures var c := if maxConcurrency < 1 then 1 else maxConcurrency;
      var end := After(Initial(maxConcurrency, maxQueueDepth), events);
      && Conserved(end, c, c + maxQueueDepth)
      && |Workers(end.requests)| <= c
      && (|Workers(end.requests)| == c ==> |Waiting(end.requests)| <= maxQueueDepth)
      && (end.pools.freeSlots == 0 <==> |end.requests| == c + maxQueueDepth)
  {
    var start := Initial(maxConcurrency, maxQueueDepth);
    RunConserves(start, events, start.pools.freeWorkers, start.pools.freeSlots);
    var end := After(start, events);
    assert end.requests.Keys == Workers(end.requests) + Waiting(end.requests);
  }

  /**
   Every permit can be used, in every run: a request is admitted exactly when fewer than c + q are held,
   an admitted one can get a worker exactly when fewer than c work, and each end gives back what was held.
   */
  lemma EveryPermitIsUsable(maxConcurrency: nat, maxQueueDepth: nat, events: seq<Event>, r: int)
    requires Allowed(Initial(maxConcurrency, maxQueueDepth), events)
    requires (if maxConcurrency < 1 then 1 else maxConcurrency) + maxQueueDepth <= MAX_USIZE
    ensures var c := if maxConcurrency < 1 then 1 else maxConcurrency;
      var end := After(Initial(maxConcurrency, maxQueueDepth), events);
      var held := |end.requests|;
      && (r !in end.requests ==>
            var next := Next(end, TryAdmit(r));
            (r in next.requests <==> held < c + maxQueueDepth) &&
            (r in next.requests ==> next.requests == end.requests[r := Admitted]) &&
            (r !in next.requests ==> next == end))
      && (r in end.requests && end.requests[r] == Admitted ==>
            (Enabled(end, GetWorker(r)) <==> |Workers(end.requests)| < c) &&
            Next(end, Timeout(r)).requests == end.requests - {r} &&
            Next(end, DropRequest(r)).requests == end.requests - {r})
      && (r in end.requests && end.requests[r] == Permitted ==>
            Next(end, DropRequest(r)).requests == end.requests - {r} &&
            Next(end, StartBlocking(r)).requests == end.requests[r := Blocking])
      && (r in end.requests && end.requests[r] == Blocking ==>
            Next(end, DropRequest(r)) == end && Next(end, WorkDone(r)).requests == end.requests - {r})
  {
    var start := Initial(maxConcurrency, maxQueueDepth);
    RunConserves(start, events, start.pools.freeWorkers, start.pools.freeSlots);
  }
}
