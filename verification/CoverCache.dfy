/**
 The browser's cover cache: object URLs for the covers on screen, loads in generations, at most four
 at a time. Script events run one after the other; what happens between them is in the state.
 */
module CoverCache {

  const COVER_CONCURRENCY: nat := 4

  type Key = (nat, string)

  datatype Task = Task(path: string, generation: nat)

  /** A started load: it still waits for a fetch, or its promise has settled and its end is due. */
  datatype Load = Waiting(key: Key) | Settled

  /**
   `created` counts the object URLs made so far, which are numbered from 0; `activeLoads` is the
   script's counter and `running` the loads it stands for.
   */
  datatype Cache = Cache(
    generation: nat,
    active: set<string>,
    urls: map<string, nat>,
    pending: set<Key>,
    queue: seq<Task>,
    activeLoads: nat,
    running: seq<Load>,
    created: nat,
    revoked: set<nat>)

  const EMPTY := Cache(0, {}, map[], {}, [], 0, [], 0, {})

  // ---------- the events, as functions ----------

  function Dropped(urls: map<string, nat>, active: set<string>): set<nat> {
    set path | path in urls && path !in active :: urls[path]
  }

  function Kept(urls: map<string, nat>, active: set<string>): map<string, nat> {
    map path | path in urls && path in active :: urls[path]
  }

  function UrlsOf(urls: map<string, nat>, paths: set<string>): set<nat>
    requires paths <= urls.Keys
  {
    set path | path in paths :: urls[path]
  }

  lemma OneMoreUrl(urls: map<string, nat>, paths: set<string>, path: string)
    requires paths <= urls.Keys && path in urls
    ensures UrlsOf(urls, paths + {path}) == UrlsOf(urls, paths) + {urls[path]}
  {
  }

  /** Show exactly these covers: a new generation, nothing queued, other URLs revoked. */
  function Sync(c: Cache, active: set<string>): Cache {
    c.(generation := c.generation + 1, queue := [], active := active,
       urls := Kept(c.urls, active), revoked := c.revoked + Dropped(c.urls, active))
  }

  function Clear(c: Cache): Cache {
    Sync(c, {})
  }

  function Start(c: Cache, task: Task): Cache {
    if task.path in c.urls then c.(activeLoads := c.activeLoads + 1, running := c.running + [Settled])
    else
      var key := (task.generation, task.path);
      c.(activeLoads := c.activeLoads + 1, pending := c.pending + {key}, running := c.running + [Waiting(key)])
  }

  predicate Stale(c: Cache, generation: nat, path: string) {
    generation != c.generation || path !in c.active
  }

  function Pump(c: Cache): Cache
    decreases |c.queue|
  {
    if c.activeLoads >= COVER_CONCURRENCY || c.queue == [] then c
    else
      var task, rest := c.queue[0], c.(queue := c.queue[1..]);
      Pump(if Stale(rest, task.generation, task.path) then rest else Start(rest, task))
  }

  function Enqueue(c: Cache, task: Task): Cache {
    if task in c.queue then c else Pump(c.(queue := c.queue + [task]))
  }

  function Settle(running: seq<Load>, key: Key): seq<Load> {
    seq(|running|, i requires 0 <= i < |running| => if running[i] == Waiting(key) then Settled else running[i])
  }

  /** A fetch ends: its URL is kept only if its generation and path are still wanted. */
  function Respond(c: Cache, key: Key, loaded: bool): Cache {
    var done := c.(pending := c.pending - {key}, running := Settle(c.running, key));
    if !loaded then done
    else if Stale(c, key.0, key.1) then done.(created := c.created + 1, revoked := c.revoked + {c.created})
    else done.(created := c.created + 1, urls := c.urls[key.1 := c.created])
  }

  /** The end of a settled load frees its place. */
  function Finish(c: Cache, i: nat): Cache
    requires i < |c.running| && c.activeLoads > 0
  {
    Pump(c.(activeLoads := c.activeLoads - 1, running := c.running[..i] + c.running[i + 1..]))
  }

  datatype Event =
    | Syncing(active: set<string>)
    | Clearing
    | Enqueuing(task: Task)
    | Responding(key: Key, loaded: bool)
    | Finishing(i: nat)

  /** A late observer may still enqueue for an old generation; loads end in any order. */
  predicate Enabled(c: Cache, e: Event) {
    match e
    case Enqueuing(task) => task.generation <= c.generation
    case Responding(key, _) => key in c.pending
    case Finishing(i) => i < |c.running| && c.running[i].Settled? && c.activeLoads > 0
    case _ => true
  }

  function Next(c: Cache, e: Event): Cache
    requires Enabled(c, e)
  {
    match e
    case Syncing(active) => Sync(c, active)
    case Clearing => Clear(c)
    case Enqueuing(task) => Enqueue(c, task)
    case Responding(key, loaded) => Respond(c, key, loaded)
    case Finishing(i) => Finish(c, i)
  }

  // ---------- the script ----------

  class CoverImages {
    var generation: nat
    var active: set<string>
    var coverUrls: map<string, nat>
    var pendingUrls: set<Key>
    var queue: seq<Task>
    var activeLoads: nat
    var running: seq<Load>
    var created: nat
    var revoked: set<nat>

    ghost function View(): Cache
      reads this
    {
      Cache(generation, active, coverUrls, pendingUrls, queue, activeLoads, running, created, revoked)
    }

    method RevokeUrl(url: nat)
      modifies `revoked
      ensures revoked == old(revoked) + {url}
    {
      revoked := revoked + {url};
    }

    /** The sweep over the cached covers: what is not wanted any more is revoked and forgotten. */
    method DropInactive()
      modifies `coverUrls, `revoked
      ensures coverUrls == Kept(old(coverUrls), active)
      ensures revoked == old(revoked) + Dropped(old(coverUrls), active)
    {
      ghost var before := coverUrls;
      ghost var gone: set<string> := {};
      var rest := coverUrls.Keys;
      while rest != {}
        invariant rest <= coverUrls.Keys && coverUrls == before - gone
        invariant gone <= before.Keys && gone !! active && coverUrls.Keys - rest <= active
        invariant revoked == old(revoked) + UrlsOf(before, gone)
        decreases |rest|
      {
        var path :| path in rest;
        rest := rest - {path};
        if path !in active {
          RevokeUrl(coverUrls[path]);
          coverUrls := coverUrls - {path};
          OneMoreUrl(before, gone, path);
          gone := gone + {path};
        }
      }
      assert gone == set path | path in before && path !in active;
    }

    method SyncCoverImages(paths: seq<string>)
      modifies this
      ensures View() == Sync(old(View()), set path | path in paths)
    {
      generation := generation + 1;
      queue := [];
      active := set path | path in paths;
      DropInactive();
    }

    method ClearCoverImages()
      modifies this
      ensures View() == Clear(old(View()))
    {
      generation := generation + 1;
      queue := [];
      active := {};
      revoked := revoked + Dropped(coverUrls, {});
      coverUrls := map[];
    }

    method PumpQueue()
      modifies this
      ensures View() == Pump(old(View()))
    {
      while activeLoads < COVER_CONCURRENCY && queue != []
        invariant Pump(View()) == Pump(old(View()))
        decreases |queue|
      {
        ghost var before := View();
        var task := queue[0];
        queue := queue[1..];
        ghost var rest := View();
        assert Pump(before) == Pump(if Stale(rest, task.generation, task.path) then rest else Start(rest, task));
        if task.generation != generation || task.path !in active {
          continue;
        }
        activeLoads := activeLoads + 1;
        FetchCover(task);
        assert pendingUrls == Start(rest, task).pending;
        assert View() == Start(rest, task);
      }
    }

    /** The part of a fetch before it first waits. */
    method FetchCover(task: Task)
      modifies `running, `pendingUrls
      ensures running ==
              old(running) + [if task.path in coverUrls then Settled else Waiting((task.generation, task.path))]
      ensures pendingUrls == old(pendingUrls) + if task.path in coverUrls then {} else {(task.generation, task.path)}
    {
      if task.path in coverUrls {
        running := running + [Settled];
        return;
      }
      var key := (task.generation, task.path);
      if key !in pendingUrls {
        pendingUrls := pendingUrls + {key};
      }
      running := running + [Waiting(key)];
    }

    method EnqueueCover(task: Task)
      modifies this
      ensures View() == Enqueue(old(View()), task)
    {
      if task in queue {
        return;
      }
      queue := queue + [task];
      PumpQueue();
    }

    /** The part of a fetch after its response. */
    method FetchResponded(key: Key, loaded: bool)
      modifies this
      ensures View() == Respond(old(View()), key, loaded)
    {
      if loaded {
        var url := created;
        created := created + 1;
        if key.0 != generation || key.1 !in active {
          RevokeUrl(url);
        } else {
          coverUrls := coverUrls[key.1 := url];
        }
      }
      pendingUrls := pendingUrls - {key};
      running := Settle(running, key);
    }

    method LoadFinished(i: nat)
      requires i < |running| && activeLoads > 0
      modifies this
      ensures View() == Finish(old(View()), i)
    {
      activeLoads := activeLoads - 1;
      running := running[..i] + running[i + 1..];
      PumpQueue();
    }
  }

  // ---------- every interleaving ----------

  predicate Live(created: nat, revoked: set<nat>, url: nat) {
    url < created && url !in revoked
  }

  /** The live URLs are exactly the cached ones, one per active path. */
  ghost predicate NoLeak(active: set<string>, urls: map<string, nat>, created: nat, revoked: set<nat>) {
    (forall path :: path in urls ==> path in active && Live(created, revoked, urls[path])) &&
    (forall p, q :: p in urls && q in urls && urls[p] == urls[q] ==> p == q) &&
    (forall url :: Live(created, revoked, url) ==> exists path :: path in urls && urls[path] == url) &&
    (forall url :: url in revoked ==> url < created)
  }

  ghost predicate LoadsCounted(c: Cache) {
    c.activeLoads == |c.running| <= COVER_CONCURRENCY &&
    (forall i :: 0 <= i < |c.running| && c.running[i].Waiting? ==> c.running[i].key in c.pending)
  }

  /** A cover the current generation is loading is not cached, so a response never overwrites a URL. */
  ghost predicate PendingAreMissing(c: Cache) {
    (forall path :: (c.generation, path) in c.pending ==> path !in c.urls) &&
    (forall key :: key in c.pending ==> key.0 <= c.generation)
  }

  ghost predicate Inv(c: Cache) {
    NoLeak(c.active, c.urls, c.created, c.revoked) && LoadsCounted(c) && PendingAreMissing(c)
  }

  lemma SyncKeepsInv(c: Cache, active: set<string>)
    requires Inv(c)
    ensures Inv(Sync(c, active))
    ensures c.revoked !! Dropped(c.urls, active)
  {
    var next := Sync(c, active);
    forall url | Live(next.created, next.revoked, url)
      ensures exists path :: path in next.urls && next.urls[path] == url
    {
      assert Live(c.created, c.revoked, url);
      var path :| path in c.urls && c.urls[path] == url;
      assert path in next.urls;
    }
    forall path | path in next.urls ensures Live(next.created, next.revoked, next.urls[path]) {
      assert path in c.urls;
    }
  }

  lemma {:induction false} PumpKeepsInv(c: Cache)
    requires Inv(c)
    ensures Inv(Pump(c)) && Pump(c).urls == c.urls && Pump(c).revoked == c.revoked && Pump(c).created == c.created
    decreases |c.queue|
  {
    if c.activeLoads < COVER_CONCURRENCY && c.queue != [] {
      var task, rest := c.queue[0], c.(queue := c.queue[1..]);
      var next := if Stale(rest, task.generation, task.path) then rest else Start(rest, task);
      PumpKeepsInv(next);
    }
  }

  lemma RespondKeepsInv(c: Cache, key: Key, loaded: bool)
    requires Inv(c) && key in c.pending
    ensures Inv(Respond(c, key, loaded))
  {
    var next := Respond(c, key, loaded);
    if loaded && !Stale(c, key.0, key.1) {
      assert key == (c.generation, key.1) && key.1 !in c.urls;
    }
    forall url | Live(next.created, next.revoked, url)
      ensures exists path :: path in next.urls && next.urls[path] == url
    {
      if url == c.created {
        assert next.urls[key.1] == url;
      } else {
        assert Live(c.created, c.revoked, url);
        var path :| path in c.urls && c.urls[path] == url;
        assert next.urls[path] == url;
      }
    }
  }

  lemma StepKeepsInv(c: Cache, e: Event)
    requires Inv(c) && Enabled(c, e)
    ensures Inv(Next(c, e))
  {
    match e
    case Syncing(active) => SyncKeepsInv(c, active);
    case Clearing => SyncKeepsInv(c, {});
    case Enqueuing(task) =>
      if task !in c.queue {
        var queued := c.(queue := c.queue + [task]);
        PumpKeepsInv(queued);
      }
    case Responding(key, loaded) => RespondKeepsInv(c, key, loaded);
    case Finishing(i) =>
      var freed := c.(activeLoads := c.activeLoads - 1, running := c.running[..i] + c.running[i + 1..]);
      PumpKeepsInv(freed);
  }

  ghost predicate Allowed(c: Cache, events: seq<Event>)
    decreases |events|
  {
    events == [] || (Enabled(c, events[0]) && Allowed(Next(c, events[0]), events[1..]))
  }

  ghost function After(c: Cache, events: seq<Event>): Cache
    requires Allowed(c, events)
    decreases |events|
  {
    if events == [] then c else After(Next(c, events[0]), events[1..])
  }

  lemma {:induction false} RunKeepsInv(c: Cache, events: seq<Event>)
    requires Inv(c) && Allowed(c, events)
    ensures Inv(After(c, events))
    decreases |events|
  {
    if events != [] {
      StepKeepsInv(c, events[0]);
      RunKeepsInv(Next(c, events[0]), events[1..]);
    }
  }

  /**
   In every interleaving: a URL is created and not yet revoked exactly when it is cached, cached URLs
   belong to different active paths, and the counter is the number of running loads, at most four.
   */
  lemma UrlsNeverLeak(events: seq<Event>)
    requires Allowed(EMPTY, events)
    ensures var c := After(EMPTY, events);
      && (forall url :: Live(c.created, c.revoked, url) <==> exists path :: path in c.urls && c.urls[path] == url)
      && (forall p, q :: p in c.urls && q in c.urls && c.urls[p] == c.urls[q] ==> p == q)
      && c.urls.Keys <= c.active
      && c.activeLoads == |c.running| <= COVER_CONCURRENCY
  {
    RunKeepsInv(EMPTY, events);
  }

  /** The cached paths that are no longer active. */
  function Gone(c: Cache, active: set<string>): set<string> {
    set path | path in c.urls && path !in active
  }

  /** How often one event revokes a URL: once for each cached path it drops, or for a response nobody wants. */
  function Revocations(c: Cache, e: Event): nat {
    match e
    case Syncing(active) => |Gone(c, active)|
    case Clearing => |Gone(c, {})|
    case Responding(key, loaded) => if loaded && Stale(c, key.0, key.1) then 1 else 0
    case _ => 0
  }

  ghost function AllRevocations(c: Cache, events: seq<Event>): nat
    requires Allowed(c, events)
    decreases |events|
  {
    if events == [] then 0 else Revocations(c, events[0]) + AllRevocations(Next(c, events[0]), events[1..])
  }

  lemma {:induction false} DifferentUrls(urls: map<string, nat>, paths: set<string>)
    requires paths <= urls.Keys && forall p, q :: p in paths && q in paths && urls[p] == urls[q] ==> p == q
    ensures |UrlsOf(urls, paths)| == |paths|
    decreases |paths|
  {
    if paths != {} {
      var path :| path in paths;
      var rest := paths - {path};
      DifferentUrls(urls, rest);
      OneMoreUrl(urls, rest, path);
      assert paths == rest + {path};
      assert urls[path] !in UrlsOf(urls, rest);
    }
  }

  lemma SyncRevokesOnce(c: Cache, active: set<string>)
    requires Inv(c)
    ensures |Sync(c, active).revoked| == |c.revoked| + |Gone(c, active)|
  {
    SyncKeepsInv(c, active);
    DifferentUrls(c.urls, Gone(c, active));
    assert UrlsOf(c.urls, Gone(c, active)) == Dropped(c.urls, active);
  }

  /** Each revocation of an event is of a URL that was not revoked before. */
  lemma RevokingIsNew(c: Cache, e: Event)
    requires Inv(c) && Enabled(c, e)
    ensures c.revoked <= Next(c, e).revoked && |Next(c, e).revoked| == |c.revoked| + Revocations(c, e)
  {
    match e
    case Syncing(active) => SyncRevokesOnce(c, active);
    case Clearing => SyncRevokesOnce(c, {});
    case Enqueuing(task) =>
      if task !in c.queue {
        var queued := c.(queue := c.queue + [task]);
        PumpKeepsInv(queued);
      }
    case Responding(_, _) =>
    case Finishing(i) =>
      var freed := c.(activeLoads := c.activeLoads - 1, running := c.running[..i] + c.running[i + 1..]);
      PumpKeepsInv(freed);
  }

  lemma {:induction false} RevocationsAdd(c: Cache, events: seq<Event>)
    requires Inv(c) && Allowed(c, events)
    ensures c.revoked <= After(c, events).revoked
    ensures |After(c, events).revoked| == |c.revoked| + AllRevocations(c, events)
    decreases |events|
  {
    if events != [] {
      RevokingIsNew(c, events[0]);
      StepKeepsInv(c, events[0]);
      RevocationsAdd(Next(c, events[0]), events[1..]);
    }
  }

  /** In every run there are as many revocations as revoked URLs: none is revoked twice, and none comes back. */
  lemma RevokedOnlyOnce(events: seq<Event>, more: seq<Event>)
    requires Allowed(EMPTY, events) && Allowed(After(EMPTY, events), more)
    ensures AllRevocations(EMPTY, events) == |After(EMPTY, events).revoked|
    ensures After(EMPTY, events).revoked <= After(After(EMPTY, events), more).revoked
  {
    RunKeepsInv(EMPTY, events);
    RevocationsAdd(EMPTY, events);
    RevocationsAdd(After(EMPTY, events), more);
  }

  // ---------- wanted covers are loaded and shown ----------

  /** Showing other covers keeps the URL of every cover that is still wanted. */
  lemma SyncKeepsWanted(c: Cache, active: set<string>)
    ensures var next := Sync(c, active);
      forall path :: path in next.urls <==> path in c.urls && path in active
    ensures forall path :: path in c.urls && path in active ==> Sync(c, active).urls[path] == c.urls[path]
    ensures Sync(c, active).generation > c.generation && Sync(c, active).active == active && Sync(c, active).queue == []
  {
  }

  /** A fetch that succeeds for the current generation and a wanted cover is shown; any other creates no cover. */
  lemma ResponseIsShown(c: Cache, key: Key, loaded: bool)
    requires Inv(c) && key in c.pending
    ensures var next := Respond(c, key, loaded);
      && key !in next.pending
      && (loaded && key.0 == c.generation && key.1 in c.active ==>
            key.1 in next.urls && Live(next.created, next.revoked, next.urls[key.1]))
      && (!(loaded && key.0 == c.generation && key.1 in c.active) ==> next.urls == c.urls)
      && (forall path :: path in c.urls ==> path in next.urls && next.urls[path] == c.urls[path])
  {
    RespondKeepsInv(c, key, loaded);
  }

  /** The tasks of a queue that are still wanted, in order. */
  function Wanted(c: Cache, queue: seq<Task>): seq<Task>
    decreases |queue|
  {
    if queue == [] then []
    else if queue[0].generation == c.generation && queue[0].path in c.active then [queue[0]] + Wanted(c, queue[1..])
    else Wanted(c, queue[1..])
  }

  /** The load that a task starts: a cached cover needs no fetch. */
  function Started(c: Cache, task: Task): Load {
    if task.path in c.urls then Settled else Waiting((task.generation, task.path))
  }

  function AllStarted(c: Cache, tasks: seq<Task>): seq<Load> {
    seq(|tasks|, i requires 0 <= i < |tasks| => Started(c, tasks[i]))
  }

  /** Of the queue of one state the first `n` wanted tasks have been started, in order, and the others wait. */
  ghost predicate Pumped(c: Cache, next: Cache, n: nat) {
    n <= |Wanted(c, c.queue)| && Wanted(c, next.queue) == Wanted(c, c.queue)[n..] &&
    next.running == c.running + AllStarted(c, Wanted(c, c.queue)[..n]) && next.activeLoads == c.activeLoads + n &&
    next.urls == c.urls && next.generation == c.generation && next.active == c.active
  }

  lemma PumpedAfterStale(c: Cache, next: Cache, n: nat)
    requires c.queue != [] && Stale(c, c.queue[0].generation, c.queue[0].path)
    requires Pumped(c.(queue := c.queue[1..]), next, n)
    ensures Pumped(c, next, n)
  {
    var rest := c.(queue := c.queue[1..]);
    SameWanted(rest, c, c.queue[1..]);
    SameWanted(rest, c, next.queue);
    assert AllStarted(rest, Wanted(c, c.queue)[..n]) == AllStarted(c, Wanted(c, c.queue)[..n]);
  }

  lemma PumpedAfterStart(c: Cache, next: Cache, n: nat)
    requires c.queue != [] && !Stale(c, c.queue[0].generation, c.queue[0].path)
    requires Pumped(Start(c.(queue := c.queue[1..]), c.queue[0]), next, n)
    ensures Pumped(c, next, n + 1)
  {
    var task, first := c.queue[0], Start(c.(queue := c.queue[1..]), c.queue[0]);
    SameWanted(first, c, c.queue[1..]);
    SameWanted(first, c, next.queue);
    var later := Wanted(c, c.queue[1..]);
    assert Wanted(c, c.queue) == [task] + later;
    assert Wanted(c, c.queue)[..n + 1] == [task] + later[..n] && Wanted(c, c.queue)[n + 1..] == later[n..];
    assert first.running == c.running + [Started(c, task)];
    StartedFirst(c, first, task, later[..n]);
  }

  /**
   The queue is worked off as long as there is a place: what is started are the first wanted tasks, in
   order; the others wait, and afterwards either the queue is empty or all places are taken.
   */
  lemma {:induction false} PumpMeans(c: Cache) returns (n: nat)
    ensures Pumped(c, Pump(c), n)
    ensures Pump(c).queue == [] || Pump(c).activeLoads >= COVER_CONCURRENCY
    decreases |c.queue|
  {
    if c.activeLoads >= COVER_CONCURRENCY || c.queue == [] {
      n := 0;
      assert c.running + AllStarted(c, Wanted(c, c.queue)[..0]) == c.running;
    } else {
      var task, rest := c.queue[0], c.(queue := c.queue[1..]);
      if Stale(rest, task.generation, task.path) {
        n := PumpMeans(rest);
        PumpedAfterStale(c, Pump(c), n);
      } else {
        n := PumpMeans(Start(rest, task));
        PumpedAfterStart(c, Pump(c), n);
        n := n + 1;
      }
    }
  }

  lemma {:induction false} SameWanted(a: Cache, b: Cache, queue: seq<Task>)
    requires a.generation == b.generation && a.active == b.active
    ensures Wanted(a, queue) == Wanted(b, queue)
    decreases |queue|
  {
    if queue != [] {
      SameWanted(a, b, queue[1..]);
    }
  }

  lemma StartedFirst(c: Cache, next: Cache, task: Task, tasks: seq<Task>)
    requires next.urls == c.urls
    ensures AllStarted(c, [task] + tasks) == [Started(c, task)] + AllStarted(next, tasks)
    ensures c.running + AllStarted(c, [task] + tasks) == c.running + [Started(c, task)] + AllStarted(next, tasks)
  {
  }

  ghost predicate NoRepeats(queue: seq<Task>) {
    forall i, j :: 0 <= i < j < |queue| ==> queue[i] != queue[j]
  }

  lemma {:induction false} PumpKeepsNoRepeats(c: Cache)
    requires NoRepeats(c.queue)
    ensures NoRepeats(Pump(c).queue)
    decreases |c.queue|
  {
    if c.activeLoads < COVER_CONCURRENCY && c.queue != [] {
      var task, rest := c.queue[0], c.(queue := c.queue[1..]);
      PumpKeepsNoRepeats(if Stale(rest, task.generation, task.path) then rest else Start(rest, task));
    }
  }

  lemma {:induction false} QueueFrom(c: Cache, events: seq<Event>)
    requires NoRepeats(c.queue) && Allowed(c, events)
    ensures NoRepeats(After(c, events).queue)
    decreases |events|
  {
    if events != [] {
      match events[0] {
        case Enqueuing(task) =>
          if task !in c.queue {
            PumpKeepsNoRepeats(c.(queue := c.queue + [task]));
          }
        case Finishing(i) =>
          PumpKeepsNoRepeats(c.(activeLoads := c.activeLoads - 1, running := c.running[..i] + c.running[i + 1..]));
        case _ =>
      }
      QueueFrom(Next(c, events[0]), events[1..]);
    }
  }

  /** In every run no cover of one generation is queued twice. */
  lemma QueueNeverRepeats(events: seq<Event>)
    requires Allowed(EMPTY, events)
    ensures NoRepeats(After(EMPTY, events).queue)
  {
    QueueFrom(EMPTY, events);
  }
}
