/**
 The job registry: records move forward only, finished ones are kept for a while and up to a bound.
 Times are integers; `tick` is the clock when a record is touched, `now` the clock a pruning uses.
 */
module Jobs {
  import opened Basics
  import opened Ordering

  const TERMINAL_CAPACITY: nat := 64

  const TERMINAL_RETENTION: int := 60 * 60

  const COMPLETE_PHASE_ORDER: nat := 255

  datatype State = Queued | Running | Succeeded | Failed | Cancelled

  datatype Progress = Progress(current: nat, total: nat) {
    /** The quotient, unrounded. */
    function Percent(): real {
      if total == 0 then 100.0
      else
        var p := current as real / total as real * 100.0;
        if p > 100.0 then 100.0 else p
    }
  }

  datatype Job = Job(
    state: State, phase: string, order: nat, progress: Option<Progress>, result: Option<string>, error: Option<string>,
    created: int, updated: int, terminalAt: Option<int>)

  type Registry = map<string, Job>

  datatype Verdict = Ok | NotFound | IllegalState | InvalidPhaseTransition | ProgressRegressed

  /** What a reporter, or a canceller, asks of one job. */
  datatype Request =
    | Start
    | SetPhase(phase: string, order: nat)
    | SetProgress(current: nat, total: nat)
    | Succeed(result: string)
    | Fail(error: string)
    | Cancel

  predicate Terminal(state: State) {
    state in {Succeeded, Failed, Cancelled}
  }

  function NewJob(now: int): Job {
    Job(Queued, "queued", 0, None, None, None, now, now, None)
  }

  function Touched(j: Job, tick: int): Job {
    j.(updated := if tick > j.updated then tick else j.updated)
  }

  function Ended(j: Job, tick: int): Job {
    Touched(j, tick).(terminalAt := Some(Touched(j, tick).updated))
  }

  function VerdictOn(j: Job, r: Request): Verdict {
    if Terminal(j.state) then Ok
    else
      match r
      case Start => if j.state == Queued then Ok else IllegalState
      case SetPhase(phase, order) =>
        if j.state != Running then IllegalState
        else if order < j.order || (order == j.order && phase != j.phase) then InvalidPhaseTransition
        else Ok
      case SetProgress(current, total) =>
        if j.state != Running then IllegalState
        else if j.progress.Some? && (total != j.progress.value.total || current < j.progress.value.current)
        then ProgressRegressed
        else Ok
      case Succeed(_) => if j.state == Running then Ok else IllegalState
      case _ => Ok
  }

  /** The record after a request; a refused or a late request changes nothing. */
  function Changed(j: Job, r: Request, tick: int): Job {
    if Terminal(j.state) || VerdictOn(j, r) != Ok then j
    else
      match r
      case Start => Touched(j.(state := Running), tick)
      case SetPhase(phase, order) =>
        if order > j.order then Touched(j.(phase := phase, order := order, progress := None), tick) else j
      case SetProgress(current, total) =>
        if j.progress == Some(Progress(current, total)) then j
        else Touched(j.(progress := Some(Progress(current, total))), tick)
      case Succeed(result) =>
        Ended(j.(state := Succeeded, phase := "complete", order := COMPLETE_PHASE_ORDER, progress := None,
                 result := Some(result), error := None), tick)
      case Fail(error) => Ended(j.(state := Failed, progress := None, result := None, error := Some(error)), tick)
      case Cancel => Ended(j.(state := Cancelled, progress := None, result := None, error := None), tick)
  }

  function Finished(jobs: Registry): set<string> {
    set id | id in jobs && jobs[id].terminalAt.Some?
  }

  function Outdated(jobs: Registry, now: int): set<string> {
    set id | id in jobs && jobs[id].terminalAt.Some? && now - jobs[id].terminalAt.value >= TERMINAL_RETENTION
  }

  /** Finished earlier; equal times are decided by the ids. */
  predicate Earlier(jobs: Registry, a: string, b: string)
    requires a in Finished(jobs) && b in Finished(jobs)
  {
    jobs[a].terminalAt.value < jobs[b].terminalAt.value ||
    (jobs[a].terminalAt == jobs[b].terminalAt && Less(a, b))
  }

  lemma EarlierTransitive(jobs: Registry, a: string, b: string, c: string)
    requires a in Finished(jobs) && b in Finished(jobs) && c in Finished(jobs)
    requires Earlier(jobs, a, b) && Earlier(jobs, b, c)
    ensures Earlier(jobs, a, c)
  {
    if Less(a, b) && Less(b, c) {
      LessTransitive(a, b, c);
    }
  }

  ghost predicate IsOldest(jobs: Registry, dropped: set<string>) {
    var all := Finished(jobs);
    dropped <= all &&
    |all - dropped| == (if |all| > TERMINAL_CAPACITY then TERMINAL_CAPACITY else |all|) &&
    forall d, k :: d in dropped && k in all - dropped ==> Earlier(jobs, d, k)
  }

  /** One pruning: outdated records go, then the earliest finished beyond the capacity. */
  ghost predicate IsPruned(jobs: Registry, now: int, after: Registry) {
    var recent := jobs - Outdated(jobs, now);
    exists dropped :: IsOldest(recent, dropped) && after == recent - dropped
  }

  predicate Prunes(r: Request) {
    r.Succeed? || r.Fail?
  }

  /** A request on the whole registry; finishing a job prunes in the same lock section. */
  ghost predicate Requested(jobs: Registry, id: string, r: Request, tick: int, now: int, after: Registry) {
    if id !in jobs || VerdictOn(jobs[id], r) != Ok || Terminal(jobs[id].state) then after == jobs
    else
      var changed := jobs[id := Changed(jobs[id], r, tick)];
      if Prunes(r) then IsPruned(changed, now, after) else after == changed
  }

  function Answer(jobs: Registry, id: string, r: Request): Verdict {
    if r.SetProgress? && r.current > r.total then ProgressRegressed
    else if id !in jobs then NotFound
    else VerdictOn(jobs[id], r)
  }

  // ---------- the registry ----------

  class JobRegistry {
    var jobs: Registry

    method Prune(now: int)
      modifies this
      ensures IsPruned(old(jobs), now, jobs)
    {
      jobs := jobs - Outdated(jobs, now);
      var dropped := DropOldest();
    }

    method DropOldest() returns (dropped: set<string>)
      modifies this
      ensures jobs == old(jobs) - dropped && IsOldest(old(jobs), dropped)
    {
      ghost var before := jobs;
      ghost var all := Finished(jobs);
      var finished := Finished(jobs);
      dropped := {};
      while |finished| > TERMINAL_CAPACITY
        invariant finished == all - dropped && dropped <= all && jobs == before - dropped
        invariant |finished| == if |all| > TERMINAL_CAPACITY then |finished| else |all|
        invariant |all| > TERMINAL_CAPACITY ==> |finished| >= TERMINAL_CAPACITY
        invariant forall d, k :: d in dropped && k in finished ==> Earlier(before, d, k)
        decreases |finished|
      {
        var oldest := Oldest(finished, before);
        dropped := dropped + {oldest};
        jobs := jobs - {oldest};
        finished := finished - {oldest};
      }
    }

    method Oldest(ids: set<string>, ghost before: Registry) returns (oldest: string)
      requires ids != {} && ids <= Finished(jobs) && Finished(jobs) <= Finished(before)
      requires forall id :: id in jobs ==> id in before && before[id] == jobs[id]
      ensures oldest in ids && forall id :: id in ids - {oldest} ==> Earlier(before, oldest, id)
    {
      oldest :| oldest in ids;
      var rest := ids - {oldest};
      while rest != {}
        invariant rest <= ids && oldest in ids && oldest !in rest
        invariant forall id :: id in ids - rest - {oldest} ==> Earlier(jobs, oldest, id)
        decreases |rest|
      {
        var id :| id in rest;
        rest := rest - {id};
        LessTotal(oldest, id);
        if Earlier(jobs, id, oldest) {
          forall k | k in ids - rest - {id} ensures Earlier(jobs, id, k) {
            if k != oldest {
              EarlierTransitive(jobs, id, oldest, k);
            }
          }
          oldest := id;
        }
      }
      forall id | id in ids - {oldest} ensures Earlier(before, oldest, id) {
        assert Earlier(jobs, oldest, id);
      }
    }

    method Reserve(id: string, now: int) returns (reserved: bool)
      modifies this
      ensures exists pruned :: IsPruned(old(jobs), now, pruned) && reserved == (id !in pruned) &&
                jobs == if reserved then pruned[id := NewJob(now)] else pruned
    {
      Prune(now);
      reserved := id !in jobs;
      if reserved {
        jobs := jobs[id := NewJob(now)];
      }
    }

    method StartJob(id: string, tick: int, now: int) returns (v: Verdict, started: bool)
      modifies this
      ensures v == Answer(old(jobs), id, Start) && Requested(old(jobs), id, Start, tick, now, jobs)
      ensures started <==> v == Ok && !Terminal(old(jobs)[id].state)
    {
      if id !in jobs {
        return NotFound, false;
      }
      var j := jobs[id];
      if Terminal(j.state) {
        return Ok, false;
      } else if j.state != Queued {
        return IllegalState, false;
      }
      jobs := jobs[id := Touched(j.(state := Running), tick)];
      return Ok, true;
    }

    method ReportPhase(id: string, phase: string, order: nat, tick: int, now: int) returns (v: Verdict)
      modifies this
      ensures v == Answer(old(jobs), id, SetPhase(phase, order))
      ensures Requested(old(jobs), id, SetPhase(phase, order), tick, now, jobs)
    {
      if id !in jobs {
        return NotFound;
      }
      var j := jobs[id];
      if Terminal(j.state) {
        return Ok;
      } else if j.state != Running {
        return IllegalState;
      } else if order < j.order || (order == j.order && phase != j.phase) {
        return InvalidPhaseTransition;
      }
      if order > j.order {
        j := Touched(j.(phase := phase, order := order, progress := None), tick);
      }
      jobs := jobs[id := j];
      return Ok;
    }

    method ReportProgress(id: string, current: nat, total: nat, tick: int, now: int) returns (v: Verdict)
      modifies this
      ensures v == Answer(old(jobs), id, SetProgress(current, total))
      ensures if current > total then jobs == old(jobs)
              else Requested(old(jobs), id, SetProgress(current, total), tick, now, jobs)
    {
      if current > total {
        return ProgressRegressed;
      } else if id !in jobs {
        return NotFound;
      }
      var j := jobs[id];
      if Terminal(j.state) {
        return Ok;
      } else if j.state != Running {
        return IllegalState;
      } else if j.progress.Some? && (total != j.progress.value.total || current < j.progress.value.current) {
        return ProgressRegressed;
      }
      if j.progress != Some(Progress(current, total)) {
        j := Touched(j.(progress := Some(Progress(current, total))), tick);
      }
      jobs := jobs[id := j];
      return Ok;
    }

    method SucceedJob(id: string, result: string, tick: int, now: int) returns (v: Verdict)
      modifies this
      ensures v == Answer(old(jobs), id, Succeed(result))
      ensures Requested(old(jobs), id, Succeed(result), tick, now, jobs)
    {
      if id !in jobs {
        return NotFound;
      } else if Terminal(jobs[id].state) {
        return Ok;
      } else if jobs[id].state != Running {
        return IllegalState;
      }
      var j := jobs[id].(state := Succeeded, phase := "complete", order := COMPLETE_PHASE_ORDER,
                         progress := None, result := Some(result), error := None);
      j := Touched(j, tick);
      jobs := jobs[id := j.(terminalAt := Some(j.updated))];
      Prune(now);
      return Ok;
    }

    method FailJob(id: string, error: string, tick: int, now: int) returns (v: Verdict)
      modifies this
      ensures v == Answer(old(jobs), id, Fail(error))
      ensures Requested(old(jobs), id, Fail(error), tick, now, jobs)
    {
      if id !in jobs {
        return NotFound;
      } else if Terminal(jobs[id].state) {
        return Ok;
      }
      var j := jobs[id].(state := Failed, progress := None, result := None, error := Some(error));
      j := Touched(j, tick);
      jobs := jobs[id := j.(terminalAt := Some(j.updated))];
      Prune(now);
      return Ok;
    }

    /** The first lock section of a cancellation; the second one is a plain `Prune`. */
    method CancelJob(id: string, tick: int, now: int) returns (v: Verdict, second: bool)
      modifies this
      ensures v == Answer(old(jobs), id, Cancel) && Requested(old(jobs), id, Cancel, tick, now, jobs)
      ensures second <==> id in old(jobs) && !Terminal(old(jobs)[id].state)
    {
      if id !in jobs {
        return NotFound, false;
      } else if Terminal(jobs[id].state) {
        return Ok, false;
      }
      var j := jobs[id].(state := Cancelled, progress := None, result := None, error := None);
      j := Touched(j, tick);
      jobs := jobs[id := j.(terminalAt := Some(j.updated))];
      return Ok, true;
    }
  }

  // ---------- every run ----------

  /** `cancelling` counts the cancellations between their two lock sections. */
  datatype System = System(jobs: Registry, cancelling: nat)

  datatype Event =
    | Reserving(id: string, now: int, pruned: Registry)
    | Requesting(id: string, request: Request, tick: int, now: int, after: Registry)
    | Pruning(now: int, after: Registry)
    | CancelEnding(now: int, after: Registry)

  ghost predicate Enabled(sys: System, e: Event) {
    match e
    case Reserving(id, now, pruned) => id !in sys.jobs && IsPruned(sys.jobs, now, pruned)
    case Requesting(id, request, tick, now, after) =>
      (request.SetProgress? ==> request.current <= request.total) && Requested(sys.jobs, id, request, tick, now, after)
    case Pruning(now, after) => IsPruned(sys.jobs, now, after)
    case CancelEnding(now, after) => sys.cancelling > 0 && IsPruned(sys.jobs, now, after)
  }

  predicate OpensCancel(sys: System, e: Event) {
    e.Requesting? && e.request.Cancel? && e.id in sys.jobs && !Terminal(sys.jobs[e.id].state)
  }

  function Next(sys: System, e: Event): System {
    match e
    case Reserving(id, now, pruned) => sys.(jobs := pruned[id := NewJob(now)])
    case Requesting(_, _, _, _, after) =>
      System(after, if OpensCancel(sys, e) then sys.cancelling + 1 else sys.cancelling)
    case Pruning(_, after) => sys.(jobs := after)
    case CancelEnding(_, after) => System(after, if sys.cancelling > 0 then sys.cancelling - 1 else 0)
  }

  /** Where a record may be later: forward only, and not at all once it is terminal. */
  ghost predicate Evolves(a: Job, b: Job) {
    (Terminal(a.state) ==> b == a) &&
    (a.state == Running ==> b.state != Queued) &&
    (b.state == Queued ==> a.state == Queued) &&
    a.order <= b.order && a.created == b.created && a.updated <= b.updated &&
    (!Terminal(b.state) && a.order == b.order ==>
      a.phase == b.phase &&
      (a.progress.Some? ==>
        b.progress.Some? && b.progress.value.total == a.progress.value.total &&
        a.progress.value.current <= b.progress.value.current))
  }

  /** The states one request can lead to. */
  ghost predicate Moves(a: State, b: State) {
    a == b || (a == Queued && b in {Running, Failed, Cancelled}) ||
    (a == Running && b in {Succeeded, Failed, Cancelled})
  }

  ghost predicate JobOk(j: Job) {
    (j.terminalAt.Some? <==> Terminal(j.state)) && (j.order <= COMPLETE_PHASE_ORDER) &&
    (j.state == Queued ==> j.order == 0 && j.progress.None?) &&
    (j.progress.Some? ==> j.progress.value.current <= j.progress.value.total) && TellsItsEnd(j)
  }

  /** A result exactly for success, an error exactly for failure; a job that has ended shows no progress. */
  predicate TellsItsEnd(j: Job) {
    (j.result.Some? <==> j.state == Succeeded) && (j.error.Some? <==> j.state == Failed) &&
    (Terminal(j.state) ==> j.progress.None? && j.terminalAt == Some(j.updated)) &&
    (j.state == Succeeded ==> j.phase == "complete" && j.order == COMPLETE_PHASE_ORDER)
  }

  lemma MoreOfSame(x: real, y: real, t: real)
    requires x < y && t > 0.0
    ensures x * t < y * t
  {
    assert (y - x) * t > 0.0;
  }

  lemma SameOfSame(x: real, y: real, t: real)
    requires t > 0.0
    ensures x == y <==> x * t == y * t
  {
    if x < y {
      MoreOfSame(x, y, t);
    } else if y < x {
      MoreOfSame(y, x, t);
    }
  }

  lemma QuotientTimes(a: real, t: real)
    requires t > 0.0
    ensures a / t * t == a
  {
  }

  lemma QuotientIs(a: nat, total: nat)
    requires a <= total && total > 0
    ensures a as real / total as real * total as real == a as real
    ensures 0.0 <= a as real / total as real <= 1.0
    ensures a as real / total as real == 1.0 <==> a == total
  {
    var t := total as real;
    var x := a as real / t;
    QuotientTimes(a as real, t);
    SameOfSame(x, 1.0, t);
    if x < 0.0 {
      MoreOfSame(x, 0.0, t);
    } else if x > 1.0 {
      MoreOfSame(1.0, x, t);
    }
  }

  lemma QuotientGrows(a: nat, b: nat, total: nat)
    requires a <= b <= total && total > 0
    ensures a as real / total as real <= b as real / total as real
  {
    var x, y, t := a as real / total as real, b as real / total as real, total as real;
    QuotientIs(a, total);
    QuotientIs(b, total);
    if y < x {
      MoreOfSame(y, x, t);
    }
  }

  /** Within a phase the percentage never falls, and it is full exactly at the end. */
  lemma PercentNeverFalls(a: Job, b: Job)
    requires Evolves(a, b) && JobOk(b) && !Terminal(b.state) && a.order == b.order && a.progress.Some?
    ensures b.progress.Some?
    ensures 0.0 <= a.progress.value.Percent() <= b.progress.value.Percent() <= 100.0
    ensures b.progress.value.Percent() == 100.0 <==> b.progress.value.current == b.progress.value.total
  {
    var p, q := a.progress.value, b.progress.value;
    if q.total > 0 {
      QuotientIs(p.current, q.total);
      QuotientIs(q.current, q.total);
      QuotientGrows(p.current, q.current, q.total);
    }
  }

  lemma ChangeEvolves(j: Job, r: Request, tick: int)
    requires JobOk(j) && (r.SetPhase? ==> r.order <= COMPLETE_PHASE_ORDER)
    requires r.SetProgress? ==> r.current <= r.total
    ensures Evolves(j, Changed(j, r, tick)) && Moves(j.state, Changed(j, r, tick).state) && JobOk(Changed(j, r, tick))
  {
  }

  ghost predicate ByteOrder(e: Event) {
    e.Requesting? && e.request.SetPhase? ==> e.request.order <= COMPLETE_PHASE_ORDER
  }

  ghost predicate Inv(sys: System) {
    AllOk(sys.jobs) &&
    |Finished(sys.jobs)| <= TERMINAL_CAPACITY + sys.cancelling
  }

  /** Pruning keeps every unfinished record, changes none, and leaves at most the capacity finished. */
  lemma PruningIsSafe(jobs: Registry, now: int, after: Registry)
    requires IsPruned(jobs, now, after)
    ensures forall id :: id in after ==> id in jobs && after[id] == jobs[id]
    ensures forall id :: id in jobs && id !in after ==> jobs[id].terminalAt.Some?
    ensures |Finished(after)| <= TERMINAL_CAPACITY
  {
    var recent := jobs - Outdated(jobs, now);
    var dropped :| IsOldest(recent, dropped) && after == recent - dropped;
    assert Finished(after) == Finished(recent) - dropped;
  }

  /** What a step does to the records that are there before it. */
  ghost predicate Forward(jobs: Registry, after: Registry) {
    forall id :: id in jobs && id in after ==> Evolves(jobs[id], after[id]) && Moves(jobs[id].state, after[id].state)
  }

  ghost predicate AllOk(jobs: Registry) {
    forall id :: id in jobs ==> JobOk(jobs[id])
  }

  lemma ChangeOne(jobs: Registry, id: string, r: Request, tick: int)
    requires AllOk(jobs) && id in jobs
    requires r.SetPhase? ==> r.order <= COMPLETE_PHASE_ORDER
    requires r.SetProgress? ==> r.current <= r.total
    ensures var changed := jobs[id := Changed(jobs[id], r, tick)];
      && AllOk(changed) && Forward(jobs, changed) && changed.Keys == jobs.Keys
      && Finished(changed) <= Finished(jobs) + {id}
      && (!Prunes(r) && !r.Cancel? ==> Finished(changed) == Finished(jobs))
  {
    ChangeEvolves(jobs[id], r, tick);
  }

  lemma RequestingKeepsInv(sys: System, e: Event)
    requires e.Requesting? && Inv(sys) && Enabled(sys, e) && ByteOrder(e)
    ensures Inv(Next(sys, e)) && Forward(sys.jobs, e.after)
    ensures forall id :: id in sys.jobs && id !in e.after ==>
      Terminal(sys.jobs[id].state) || (e.id == id && Prunes(e.request))
  {
    if e.id in sys.jobs && VerdictOn(sys.jobs[e.id], e.request) == Ok && !Terminal(sys.jobs[e.id].state) {
      ChangeOne(sys.jobs, e.id, e.request, e.tick);
      var changed := sys.jobs[e.id := Changed(sys.jobs[e.id], e.request, e.tick)];
      if Prunes(e.request) {
        PruningIsSafe(changed, e.now, e.after);
      } else {
        SubsetSize(Finished(changed), Finished(sys.jobs) + {e.id});
      }
    }
  }

  lemma PruningKeeps(jobs: Registry, now: int, after: Registry)
    requires AllOk(jobs) && IsPruned(jobs, now, after)
    ensures AllOk(after) && Forward(jobs, after) && |Finished(after)| <= TERMINAL_CAPACITY
    ensures forall id :: id in jobs && id !in after ==> Terminal(jobs[id].state)
    ensures after.Keys <= jobs.Keys
  {
    PruningIsSafe(jobs, now, after);
    forall id | id in jobs ensures jobs[id].terminalAt.Some? <==> Terminal(jobs[id].state) {
      assert JobOk(jobs[id]);
    }
  }

  lemma ReservingKeepsInv(sys: System, e: Event)
    requires e.Reserving? && Inv(sys) && Enabled(sys, e)
    ensures Inv(Next(sys, e)) && Forward(sys.jobs, Next(sys, e).jobs)
    ensures forall id :: id in sys.jobs && id !in Next(sys, e).jobs ==> Terminal(sys.jobs[id].state)
  {
    PruningKeeps(sys.jobs, e.now, e.pruned);
    assert Finished(e.pruned[e.id := NewJob(e.now)]) == Finished(e.pruned);
  }

  lemma StepKeepsInv(sys: System, e: Event)
    requires Inv(sys) && Enabled(sys, e) && ByteOrder(e)
    ensures Inv(Next(sys, e)) && Forward(sys.jobs, Next(sys, e).jobs)
    ensures forall id :: id in sys.jobs && id !in Next(sys, e).jobs ==>
      Terminal(sys.jobs[id].state) || (e.Requesting? && e.id == id && Prunes(e.request))
  {
    match e
    case Reserving(_, _, _) => ReservingKeepsInv(sys, e);
    case Requesting(_, _, _, _, _) => RequestingKeepsInv(sys, e);
    case Pruning(now, after) => PruningKeeps(sys.jobs, now, after);
    case CancelEnding(now, after) => PruningKeeps(sys.jobs, now, after);
  }

  lemma EvolvesTransitive(a: Job, b: Job, c: Job)
    requires Evolves(a, b) && Evolves(b, c)
    ensures Evolves(a, c)
  {
  }

  ghost predicate Allowed(sys: System, events: seq<Event>)
    decreases |events|
  {
    events == [] || (Enabled(sys, events[0]) && ByteOrder(events[0]) && Allowed(Next(sys, events[0]), events[1..]))
  }

  ghost function After(sys: System, events: seq<Event>): System
    requires Allowed(sys, events)
    decreases |events|
  {
    if events == [] then sys else After(Next(sys, events[0]), events[1..])
  }

  /** Whether a job is in the registry all through a run. */
  ghost predicate Stays(sys: System, events: seq<Event>, id: string)
    requires Allowed(sys, events)
    decreases |events|
  {
    id in sys.jobs && (events == [] || Stays(Next(sys, events[0]), events[1..], id))
  }

  /**
   Over any run a job that stays registered only moves forward, and a terminal one not at all; at most
   the capacity of finished jobs is kept, plus one for each cancellation between its lock sections.
   */
  lemma {:induction false} JobsOnlyMoveForward(sys: System, events: seq<Event>, id: string)
    requires Inv(sys) && Allowed(sys, events)
    ensures var end := After(sys, events);
      && Inv(end)
      && |Finished(end.jobs)| <= TERMINAL_CAPACITY + end.cancelling
      && (Stays(sys, events, id) ==> id in end.jobs && Evolves(sys.jobs[id], end.jobs[id]))
    decreases |events|
  {
    if events != [] {
      var next := Next(sys, events[0]);
      StepKeepsInv(sys, events[0]);
      JobsOnlyMoveForward(next, events[1..], id);
      if Stays(sys, events, id) {
        EvolvesTransitive(sys.jobs[id], next.jobs[id], After(sys, events).jobs[id]);
      }
    }
  }

  /** A request that finishes this job. */
  predicate Finishes(e: Event, id: string) {
    e.Requesting? && e.id == id && (e.request.Succeed? || e.request.Fail? || e.request.Cancel?)
  }

  lemma NotFinishing(sys: System, e: Event, id: string)
    requires Inv(sys) && Enabled(sys, e) && ByteOrder(e) && id in sys.jobs && !Terminal(sys.jobs[id].state)
    requires !Finishes(e, id)
    ensures id in Next(sys, e).jobs && !Terminal(Next(sys, e).jobs[id].state)
  {
    StepKeepsInv(sys, e);
    match e
    case Reserving(_, now, pruned) => PruningIsSafe(sys.jobs, now, pruned);
    case Requesting(other, request, tick, now, after) =>
      if other != id && other in sys.jobs && Prunes(request) && after != sys.jobs {
        PruningIsSafe(sys.jobs[other := Changed(sys.jobs[other], request, tick)], now, after);
      }
    case Pruning(now, after) => PruningIsSafe(sys.jobs, now, after);
    case CancelEnding(now, after) => PruningIsSafe(sys.jobs, now, after);
  }

  /** An unfinished job is never pruned: without a request that finishes it, it stays and stays unfinished. */
  lemma {:induction false} UnfinishedStay(sys: System, events: seq<Event>, id: string)
    requires Inv(sys) && Allowed(sys, events) && id in sys.jobs && !Terminal(sys.jobs[id].state)
    requires forall e :: e in events ==> !Finishes(e, id)
    ensures Stays(sys, events, id)
    ensures id in After(sys, events).jobs && !Terminal(After(sys, events).jobs[id].state)
    decreases |events|
  {
    if events != [] {
      assert events[0] in events;
      StepKeepsInv(sys, events[0]);
      NotFinishing(sys, events[0], id);
      UnfinishedStay(Next(sys, events[0]), events[1..], id);
    }
  }

  // ---------- what a request does ----------

  /** When a request is refused, and with which answer; a job that has ended is left alone without an error. */
  lemma WhenRefused(j: Job, r: Request)
    ensures VerdictOn(j, r) == IllegalState <==>
            (r.Start? && j.state == Running) ||
            ((r.SetPhase? || r.SetProgress? || r.Succeed?) && j.state == Queued)
    ensures VerdictOn(j, r) == InvalidPhaseTransition <==>
            r.SetPhase? && j.state == Running && (r.order < j.order || (r.order == j.order && r.phase != j.phase))
    ensures VerdictOn(j, r) == ProgressRegressed <==>
            r.SetProgress? && j.state == Running && j.progress.Some? &&
            (r.total != j.progress.value.total || r.current < j.progress.value.current)
    ensures VerdictOn(j, r) != NotFound
  {
  }

  /** The answer to a request: progress beyond its total is refused at once, then an unknown job, then as above. */
  lemma WhenAnswered(jobs: Registry, id: string, r: Request)
    ensures r.SetProgress? && r.current > r.total ==> Answer(jobs, id, r) == ProgressRegressed
    ensures !(r.SetProgress? && r.current > r.total) ==>
      Answer(jobs, id, r) == if id in jobs then VerdictOn(jobs[id], r) else NotFound
  {
  }

  /** What an unfinished job becomes when its end is accepted, whenever that is. */
  lemma EndingTells(j: Job, r: Request, tick: int)
    requires !Terminal(j.state)
    ensures var ended := Changed(j, r, tick);
      && (r.Succeed? && j.state == Running ==>
            ended.state == Succeeded && ended.result == Some(r.result) && ended.error == None &&
            ended.phase == "complete" && ended.order == COMPLETE_PHASE_ORDER)
      && (r.Fail? ==> ended.state == Failed && ended.error == Some(r.error) && ended.result == None)
      && (r.Cancel? ==> ended.state == Cancelled && ended.error == None && ended.result == None)
      && (Terminal(ended.state) ==>
            ended.progress == None && ended.terminalAt == Some(ended.updated) &&
            ended.updated == if tick > j.updated then tick else j.updated)
  {
  }

  /** What a running job shows after an accepted report. */
  lemma ReportsShow(j: Job, r: Request, tick: int)
    requires j.state == Running && VerdictOn(j, r) == Ok
    ensures var next := Changed(j, r, tick);
      && (r.SetPhase? ==> next.phase == r.phase && next.order == r.order)
      && (r.SetPhase? && r.order > j.order ==> next.progress == None)
      && (r.SetPhase? && r.order == j.order ==> next == j)
      && (r.SetProgress? ==> next.progress == Some(Progress(r.current, r.total)) && next.phase == j.phase)
      && (r.SetPhase? || r.SetProgress? ==> next.state == Running && next.result == j.result && next.error == j.error)
  {
  }

  /** The life of a job that goes well: each request is accepted, and the record tells where it is. */
  lemma GoodLife(now: int, phase: string, order: nat, total: nat, result: string, ticks: seq<int>)
    requires 0 < order <= COMPLETE_PHASE_ORDER && |ticks| == 5
    ensures var j0 := NewJob(now);
      var j1 := Changed(j0, Start, ticks[0]);
      var j2 := Changed(j1, SetPhase(phase, order), ticks[1]);
      var j3 := Changed(j2, SetProgress(0, total), ticks[2]);
      var j4 := Changed(j3, SetProgress(total, total), ticks[3]);
      var j5 := Changed(j4, Succeed(result), ticks[4]);
      && VerdictOn(j0, Start) == VerdictOn(j1, SetPhase(phase, order)) == VerdictOn(j2, SetProgress(0, total)) == Ok
      && VerdictOn(j3, SetProgress(total, total)) == VerdictOn(j4, Succeed(result)) == Ok
      && j0.state == Queued && j1.state == j2.state == j3.state == j4.state == Running
      && j2.phase == j4.phase == phase && j4.progress == Some(Progress(total, total))
      && j5.state == Succeeded && j5.result == Some(result) && j5.created == now
  {
  }

  /** A pruning forgets a finished job exactly when it is old, or later ones fill the capacity. */
  lemma WhenForgotten(jobs: Registry, now: int, after: Registry, id: string)
    requires IsPruned(jobs, now, after) && id in jobs && id !in after
    ensures jobs[id].terminalAt.Some?
    ensures now - jobs[id].terminalAt.value >= 60 * 60 ||
            (|Finished(after)| == 64 && forall k :: k in Finished(after) ==> Earlier(jobs, id, k))
  {
    var recent := jobs - Outdated(jobs, now);
    var dropped :| IsOldest(recent, dropped) && after == recent - dropped;
    assert Finished(after) == Finished(recent) - dropped;
    if id in recent {
      assert id in dropped;
      if |Finished(recent)| <= TERMINAL_CAPACITY {
        SameSizeSubset(Finished(recent) - dropped, Finished(recent));
      }
    }
  }

  lemma SameSizeSubset(a: set<string>, b: set<string>)
    requires a <= b && |a| == |b|
    ensures a == b
  {
    if x :| x in b && x !in a {
      SubsetSize(a, b - {x});
    }
  }

  /** No record older than the retention survives a pruning. */
  lemma OldOnesAreForgotten(jobs: Registry, now: int, after: Registry, id: string)
    requires IsPruned(jobs, now, after) && id in jobs
    requires jobs[id].terminalAt.Some? && now - jobs[id].terminalAt.value >= 60 * 60
    ensures id !in after
  {
  }
}
