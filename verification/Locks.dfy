/**
 Root locks. A recovery of a delete canonicalises its roots, drops duplicates and takes one exclusive
 lock after the other in one global order; other work takes a single root.
 */
module Locks {
  import opened Ordering

  datatype Result<+T> = Ok(value: T) | MissingRoot

  function CanonicalRoots(entryRoots: seq<string>, rootIds: seq<int>, canonical: map<int, string>): set<string> {
    (set root | root in entryRoots) + (set id | id in rootIds && id in canonical :: canonical[id])
  }

  /** The canonical roots of a delete; a root id without a library root is an error. */
  method ResolveDeleteRoots(entryRoots: seq<string>, rootIds: seq<int>, canonical: map<int, string>)
    returns (r: Result<set<string>>)
    ensures r.MissingRoot? <==> !(forall id :: id in rootIds ==> id in canonical)
    ensures r.Ok? ==> r.value == CanonicalRoots(entryRoots, rootIds, canonical)
  {
    var roots := set root | root in entryRoots;
    for i := 0 to |rootIds|
      invariant forall id :: id in rootIds[..i] ==> id in canonical
      invariant roots == CanonicalRoots(entryRoots, rootIds[..i], canonical)
    {
      var id := rootIds[i];
      assert id in rootIds;
      if id !in canonical {
        return MissingRoot;
      }
      roots := roots + {canonical[id]};
      assert rootIds[..i + 1] == rootIds[..i] + [id];
      assert id in rootIds[..i + 1];
    }
    assert rootIds[..|rootIds|] == rootIds;
    return Ok(roots);
  }

  ghost predicate IsGreatest(greatest: string, s: set<string>) {
    greatest in s && forall x :: x in s && x != greatest ==> Less(x, greatest)
  }

  lemma {:induction false} HasGreatest(s: set<string>) returns (greatest: string)
    requires s != {}
    ensures IsGreatest(greatest, s)
    decreases |s|
  {
    greatest :| greatest in s;
    var rest := s - {greatest};
    if rest != {} {
      assert |rest| < |s|;
      var g := HasGreatest(rest);
      LessTotal(greatest, g);
      if Less(greatest, g) {
        greatest := g;
      } else {
        forall x | x in s && x != greatest ensures Less(x, greatest) {
          if x != g {
            LessTransitive(x, g, greatest);
          }
        }
      }
    }
  }

  lemma GreatestIsUnique(g: string, h: string, s: set<string>)
    requires IsGreatest(g, s) && IsGreatest(h, s)
    ensures g == h
  {
    if g != h {
      assert Less(g, h);
      LessAsymmetric(g, h);
    }
  }

  /** The next root to put in front: the greatest of those not yet placed. */
  method PickGreatest(roots: set<string>) returns (greatest: string)
    requires roots != {}
    ensures IsGreatest(greatest, roots)
  {
    ghost var g := HasGreatest(roots);
    forall x | IsGreatest(x, roots) ensures x == g {
      GreatestIsUnique(x, g, roots);
    }
    greatest :| greatest in roots && forall y :: y in roots && y != greatest ==> Less(y, greatest);
  }

  /** The order in which a set of roots is locked: every root once, ascending. */
  ghost predicate IsPlan(plan: seq<string>, roots: set<string>) {
    StrictlySorted(plan) && forall root :: root in plan <==> root in roots
  }

  lemma PlanIsUnique(a: seq<string>, b: seq<string>, roots: set<string>)
    requires IsPlan(a, roots) && IsPlan(b, roots)
    ensures a == b
  {
    OrderIsUnique(a, b, Codes);
  }

  lemma {:induction false} PlanExists(roots: set<string>) returns (plan: seq<string>)
    ensures IsPlan(plan, roots)
    decreases |roots|
  {
    plan := [];
    if roots != {} {
      var greatest := HasGreatest(roots);
      assert |roots - {greatest}| < |roots|;
      plan := PlanExists(roots - {greatest});
      AppendGreatest(plan, roots, greatest);
      plan := plan + [greatest];
    }
  }

  lemma AppendGreatest(plan: seq<string>, roots: set<string>, greatest: string)
    requires IsGreatest(greatest, roots) && IsPlan(plan, roots - {greatest})
    ensures IsPlan(plan + [greatest], roots)
  {
    forall i | 0 <= i < |plan| ensures Less(plan[i], greatest) {
      assert plan[i] in plan;
    }
  }

  ghost function Plan(roots: set<string>): (plan: seq<string>)
    ensures IsPlan(plan, roots)
  {
    assert exists plan :: IsPlan(plan, roots) by {
      var plan := PlanExists(roots);
    }
    var plan :| IsPlan(plan, roots);
    plan
  }

  method LockOrder(roots: set<string>) returns (plan: seq<string>)
    ensures plan == Plan(roots)
    ensures forall root :: root in plan <==> root in roots
    ensures forall i, j :: 0 <= i < j < |plan| ==> Less(plan[i], plan[j])
  {
    plan := [];
    var rest := roots;
    while rest != {}
      invariant rest <= roots && StrictlySorted(plan)
      invariant forall root :: root in plan <==> root in roots - rest
      invariant forall x, y :: x in rest && y in plan ==> Less(x, y)
      decreases |rest|
    {
      var greatest := PickGreatest(rest);
      plan := [greatest] + plan;
      rest := rest - {greatest};
    }
    PlanIsUnique(plan, Plan(roots), roots);
  }

  /** A task that takes the locks of `plan` one by one; it holds the first `held` of them. */
  datatype Task = Task(plan: seq<string>, held: nat) {
    ghost predicate Valid() {
      held <= |plan| && StrictlySorted(plan)
    }

    predicate Waiting() {
      held < |plan|
    }

    function Holds(): set<string>
      requires held <= |plan|
    {
      set i | 0 <= i < held :: plan[i]
    }
  }

  type Tasks = map<int, Task>

  ghost predicate Valid(tasks: Tasks) {
    (forall t :: t in tasks ==> tasks[t].Valid()) &&
    (forall t, u :: t in tasks && u in tasks && t != u ==> tasks[t].Holds() !! tasks[u].Holds())
  }

  ghost predicate CanLock(tasks: Tasks, t: int)
    requires Valid(tasks)
  {
    t in tasks && tasks[t].Waiting() && forall u :: u in tasks ==> tasks[t].plan[tasks[t].held] !in tasks[u].Holds()
  }

  /** A task begins with the roots it will lock: the roots of a delete, or a single one. */
  datatype Event = Begin(t: int, roots: set<string>) | Lock(t: int) | End(t: int)

  ghost predicate Enabled(tasks: Tasks, e: Event)
    requires Valid(tasks)
  {
    match e
    case Begin(t, _) => t !in tasks
    case Lock(t) => CanLock(tasks, t)
    case End(t) => t in tasks
  }

  /** Ending covers finishing, failing and dying: the guards of a task are dropped together. */
  ghost function Next(tasks: Tasks, e: Event): Tasks
    requires Valid(tasks) && Enabled(tasks, e)
  {
    match e
    case Begin(t, roots) => tasks[t := Task(Plan(roots), 0)]
    case Lock(t) => tasks[t := tasks[t].(held := tasks[t].held + 1)]
    case End(t) => tasks - {t}
  }

  ghost predicate Allowed(tasks: Tasks, events: seq<Event>)
    requires Valid(tasks)
    decreases |events|
  {
    events == [] ||
    (Enabled(tasks, events[0]) &&
     (StepKeepsExclusion(tasks, events[0]); Allowed(Next(tasks, events[0]), events[1..])))
  }

  ghost function After(tasks: Tasks, events: seq<Event>): Tasks
    requires Valid(tasks) && Allowed(tasks, events)
    decreases |events|
  {
    if events == [] then tasks
    else
      StepKeepsExclusion(tasks, events[0]);
      After(Next(tasks, events[0]), events[1..])
  }

  /** One owner per root, in every run: each step keeps the held sets disjoint. */
  lemma StepKeepsExclusion(tasks: Tasks, e: Event)
    requires Valid(tasks) && Enabled(tasks, e)
    ensures Valid(Next(tasks, e))
  {
    if e.Lock? {
      var task := tasks[e.t];
      assert task.(held := task.held + 1).Holds() == task.Holds() + {task.plan[task.held]};
    }
  }

  /** No task asks for a root it already holds, which would block it on itself. */
  lemma NeverAsksTwice(tasks: Tasks, t: int)
    requires Valid(tasks) && t in tasks && tasks[t].Waiting()
    ensures tasks[t].plan[tasks[t].held] !in tasks[t].Holds()
  {
    var task := tasks[t];
    forall i | 0 <= i < task.held ensures task.plan[i] != task.plan[task.held] {
      LessAsymmetric(task.plan[i], task.plan[task.held]);
    }
  }

  /** The root a waiting task asks for next. */
  function Wants(task: Task): string
    requires task.Waiting()
  {
    task.plan[task.held]
  }

  /** A task holds nothing at or above the greatest root that is wanted, unless it wants more than that. */
  lemma HoldsBelow(task: Task, greatest: string)
    requires task.Valid() && task.Waiting() && (Wants(task) == greatest || Less(Wants(task), greatest))
    ensures greatest !in task.Holds()
  {
    forall i | 0 <= i < task.held ensures task.plan[i] != greatest {
      LessAsymmetric(task.plan[i], Wants(task));
      if Wants(task) != greatest {
        LessAsymmetric(Wants(task), greatest);
      }
    }
  }

  ghost predicate AllWaiting(tasks: Tasks, stuck: set<int>) {
    stuck <= tasks.Keys && forall t :: t in stuck ==> tasks[t].Waiting()
  }

  /** The task waits for a root that one of these tasks holds. */
  ghost predicate WaitsWithin(tasks: Tasks, stuck: set<int>, t: int)
    requires Valid(tasks) && AllWaiting(tasks, stuck) && t in stuck
  {
    exists u :: u in stuck && Wants(tasks[t]) in tasks[u].Holds()
  }

  /** Tasks that wait only on each other do not exist: among any waiting tasks, one waits on none of them. */
  lemma NoCircle(tasks: Tasks, stuck: set<int>) returns (t: int)
    requires Valid(tasks) && AllWaiting(tasks, stuck) && exists u :: u in stuck
    ensures t in stuck && !WaitsWithin(tasks, stuck, t)
  {
    var wanted := set u | u in stuck :: Wants(tasks[u]);
    var u0 :| u0 in stuck;
    assert Wants(tasks[u0]) in wanted;
    var greatest := HasGreatest(wanted);
    t :| t in stuck && Wants(tasks[t]) == greatest;
    forall u | u in stuck ensures greatest !in tasks[u].Holds() {
      assert Wants(tasks[u]) in wanted;
      HoldsBelow(tasks[u], greatest);
    }
  }

  /** If nobody holds all its locks yet, some waiting task can take its next one. */
  lemma SomebodyCanLock(tasks: Tasks) returns (t: int)
    requires Valid(tasks) && exists u :: u in tasks
    requires forall u :: u in tasks ==> tasks[u].Waiting()
    ensures CanLock(tasks, t)
  {
    t := NoCircle(tasks, tasks.Keys);
    assert forall u :: u in tasks.Keys ==> Wants(tasks[t]) !in tasks[u].Holds();
  }

  lemma {:induction false} RunKeepsExclusion(tasks: Tasks, events: seq<Event>)
    requires Valid(tasks) && Allowed(tasks, events)
    ensures Valid(After(tasks, events))
    decreases |events|
  {
    if events != [] {
      StepKeepsExclusion(tasks, events[0]);
      RunKeepsExclusion(Next(tasks, events[0]), events[1..]);
    }
  }

  /** A deadlock: tasks that all wait, each for a root that another of them holds. */
  ghost predicate Deadlock(tasks: Tasks, stuck: set<int>)
    requires Valid(tasks)
  {
    AllWaiting(tasks, stuck) && (exists t :: t in stuck) && forall t :: t in stuck ==> WaitsWithin(tasks, stuck, t)
  }

  lemma NotADeadlock(tasks: Tasks, stuck: set<int>)
    requires Valid(tasks)
    ensures !Deadlock(tasks, stuck)
  {
    if AllWaiting(tasks, stuck) && exists u :: u in stuck {
      var t := NoCircle(tasks, stuck);
    }
  }

  lemma SomethingCanGoOn(tasks: Tasks)
    requires Valid(tasks)
    ensures (forall t :: t !in tasks) || (exists t :: t in tasks && !tasks[t].Waiting()) ||
            (exists t :: CanLock(tasks, t))
  {
    if (exists t :: t in tasks) && forall t :: t in tasks ==> tasks[t].Waiting() {
      var t := SomebodyCanLock(tasks);
    }
  }

  /**
   In every run from no tasks at all: roots have one holder, no task asks for a root it holds, and no
   tasks are deadlocked, whatever the others do; so unless nothing is running or somebody holds all its
   locks, somebody can take the next one.
   */
  lemma NeverDeadlocked(events: seq<Event>)
    requires Allowed(map[], events)
    ensures var tasks := After(map[], events);
      && Valid(tasks)
      && (forall t :: t in tasks && tasks[t].Waiting() ==> Wants(tasks[t]) !in tasks[t].Holds())
      && (forall stuck :: !Deadlock(tasks, stuck))
      && ((forall t :: t !in tasks) || (exists t :: t in tasks && !tasks[t].Waiting()) ||
          (exists t :: CanLock(tasks, t)))
  {
    RunKeepsExclusion(map[], events);
    var tasks := After(map[], events);
    forall t | t in tasks && tasks[t].Waiting() ensures Wants(tasks[t]) !in tasks[t].Holds() {
      NeverAsksTwice(tasks, t);
    }
    forall stuck ensures !Deadlock(tasks, stuck) {
      NotADeadlock(tasks, stuck);
    }
    SomethingCanGoOn(tasks);
  }

  /** What beginning, locking and ending do: a task plans its roots, takes one after the other, and frees them all. */
  lemma StepMeans(tasks: Tasks, e: Event)
    requires Valid(tasks) && Enabled(tasks, e)
    ensures var next := Next(tasks, e);
      && (forall u :: u != e.t ==> (u in next <==> u in tasks) && (u in next ==> next[u] == tasks[u]))
      && (e.Begin? ==> e.t in next && next[e.t].held == 0 && forall root :: root in next[e.t].plan <==> root in e.roots)
      && (e.Lock? ==>
            e.t in next && next[e.t].plan == tasks[e.t].plan &&
            next[e.t].Holds() == tasks[e.t].Holds() + {Wants(tasks[e.t])})
      && (e.End? ==>
            e.t !in next &&
            forall root, u :: root in tasks[e.t].Holds() && u in next ==> root !in next[u].Holds())
  {
    if e.Lock? {
      var task := tasks[e.t];
      assert task.(held := task.held + 1).Holds() == task.Holds() + {task.plan[task.held]};
    }
  }

  /** A task that waits for nothing holds all the roots it planned, and only those. */
  lemma DoneHoldsAll(task: Task)
    requires task.Valid() && !task.Waiting()
    ensures forall root :: root in task.Holds() <==> root in task.plan
  {
    forall root | root in task.plan ensures root in task.Holds() {
      var i :| 0 <= i < |task.plan| && task.plan[i] == root;
    }
  }
}
