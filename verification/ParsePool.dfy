/**
 The parse worker pool as a state and its handlers as functions of it. Workers, timers
 and callers act in any order; every attempt to create a worker may fail.
 */
module ParsePool {
  import opened Options

  const MAX_CONCURRENT_SPAWN := 2
  const CRASH_BUDGET := 100

  /** How a job's promise was settled. */
  datatype Verdict = Resolved | Rejected

  type Worker = nat
  type Job = nat

  /** What the pool was made with; `created` tells which attempts to create a worker succeed. */
  datatype Config = Config(maxSize: nat, recycleInterval: nat, created: nat -> bool)

  /** The workers. Each is named by the number of the attempt that created it. */
  datatype Crew = Crew(
    idle: seq<Worker>, workers: set<Worker>, pending: set<Worker>, parseCounts: map<Worker, nat>,
    crashCount: nat, destroyed: bool, attempts: nat)

  /**
   The jobs, numbered in the order they are requested. `soft` and `hard` are the armed
   timers of jobs and the worker each was given to; `dispatched` is the log of jobs
   handed to workers.
   */
  datatype Jobs = Jobs(
    queue: seq<Job>, inflight: map<Worker, Job>, nextId: nat, settled: map<Job, Verdict>,
    soft: map<Job, Worker>, hard: map<Job, Worker>, dispatched: seq<Job>)

  datatype Pool = Pool(config: Config, crew: Crew, jobs: Jobs, readyWaiters: nat)

  predicate Healthy(c: Crew) {
    !c.destroyed && c.crashCount < CRASH_BUDGET
  }

  /** A new pool starts its first worker at once. */
  function Started(config: Config): Pool {
    var none := Crew([], {}, {}, map[], 0, false, 0);
    Pool(config, SpawnOne(config, none), Jobs([], map[], 1, map[], map[], map[], []), 0)
  }

  /** Attempts are numbered upwards, so the next one names no live worker. */
  ghost predicate FreshAttempts(c: Crew) {
    forall w :: w in c.workers ==> w < c.attempts
  }

  // ---------------------------------------------------------------- the parts of the handlers

  function SpawnOne(config: Config, c: Crew): (r: Crew)
    ensures FreshAttempts(c) ==> FreshAttempts(r)
  {
    if !Healthy(c) || |c.workers| >= config.maxSize then c
    else if !config.created(c.attempts) then c.(crashCount := c.crashCount + 1, attempts := c.attempts + 1)
    else c.(workers := c.workers + {c.attempts}, pending := c.pending + {c.attempts},
            parseCounts := c.parseCounts[c.attempts := 0], attempts := c.attempts + 1)
  }

  function Settle(jobs: Jobs, job: Job, verdict: Verdict): Jobs {
    if job in jobs.settled then jobs
    else jobs.(settled := jobs.settled[job := verdict], soft := jobs.soft - {job}, hard := jobs.hard - {job})
  }

  function Without(idle: seq<Worker>, w: Worker): seq<Worker> {
    if idle == [] then []
    else (if idle[0] == w then [] else [idle[0]]) + Without(idle[1..], w)
  }

  function RemoveWorker(c: Crew, w: Worker): (r: Crew)
    ensures FreshAttempts(c) ==> FreshAttempts(r)
  {
    c.(workers := c.workers - {w}, pending := c.pending - {w}, parseCounts := c.parseCounts - {w},
        idle := Without(c.idle, w))
  }

  function Recycle(config: Config, c: Crew, w: Worker): (r: Crew)
    ensures FreshAttempts(c) ==> FreshAttempts(r)
  {
    SpawnOne(config, RemoveWorker(c, w))
  }

  function SettleReadyWaiters(p: Pool): Pool {
    if p.crew.pending != {} then p else p.(readyWaiters := 0)
  }

  function CountOf(c: Crew, w: Worker): nat {
    if w in c.parseCounts then c.parseCounts[w] else 0
  }

  predicate WantsWorker(config: Config, c: Crew, queued: nat) {
    && queued > |c.idle| + |c.pending| && |c.workers| < config.maxSize
    && |c.pending| < MAX_CONCURRENT_SPAWN && Healthy(c)
  }

  /** Each attempt adds a worker or uses up crash budget, so spawning ends even if every attempt fails. */
  function SpawnMeasure(config: Config, c: Crew): nat {
    (if c.crashCount < CRASH_BUDGET then CRASH_BUDGET - c.crashCount else 0)
    + (if |c.workers| < config.maxSize then config.maxSize - |c.workers| else 0)
  }

  function SpawnWanted(config: Config, c: Crew, queued: nat): (r: Crew)
    requires FreshAttempts(c)
    ensures FreshAttempts(r)
    decreases SpawnMeasure(config, c)
  {
    if WantsWorker(config, c, queued) then SpawnWanted(config, SpawnOne(config, c), queued) else c
  }

  /** The queue from its first job that is not settled yet. */
  function DropSettled(queue: seq<Job>, settled: map<Job, Verdict>): (r: seq<Job>)
    ensures |r| <= |queue|
  {
    if queue != [] && queue[0] in settled then DropSettled(queue[1..], settled) else queue
  }

  /** The crew once its last idle worker was given a job. */
  function CrewTaking(c: Crew): Crew
    requires c.idle != []
  {
    var last := |c.idle| - 1;
    c.(idle := c.idle[..last], parseCounts := c.parseCounts[c.idle[last] := CountOf(c, c.idle[last]) + 1])
  }

  /** The jobs once the first of the queue is in flight on worker `w`, with its soft timer armed. */
  function JobsTaking(jobs: Jobs, w: Worker): Jobs
    requires jobs.queue != []
  {
    var job := jobs.queue[0];
    jobs.(queue := jobs.queue[1..], inflight := jobs.inflight[w := job], soft := jobs.soft[job := w],
        dispatched := jobs.dispatched + [job])
  }

  /** The last idle worker takes the first job of the queue. */
  function TakeOne(p: Pool): Pool
    requires p.crew.idle != [] && p.jobs.queue != []
  {
    p.(crew := CrewTaking(p.crew), jobs := JobsTaking(p.jobs, p.crew.idle[|p.crew.idle| - 1]))
  }

  function DispatchQueued(p: Pool): (r: Pool)
    decreases |p.jobs.queue|
  {
    if p.crew.idle == [] || p.jobs.queue == [] then p
    else
      var q := p.(jobs := p.jobs.(queue := DropSettled(p.jobs.queue, p.jobs.settled)));
      if q.jobs.queue == [] then q else DispatchQueued(TakeOne(q))
  }

  function SettleEach(jobs: Jobs, each: seq<Job>, verdict: Verdict): Jobs
    decreases |each|
  {
    if each == [] then jobs else SettleEach(Settle(jobs, each[0], verdict), each[1..], verdict)
  }

  /** With no worker left and none to come, the queued jobs fail. */
  function GiveUp(p: Pool): Pool {
    if p.jobs.queue != [] && p.crew.idle == [] && p.crew.pending == {} && p.crew.workers == {}
    then p.(jobs := SettleEach(p.jobs.(queue := []), p.jobs.queue, Rejected))
    else p
  }

  function Drain(p: Pool): Pool
    requires FreshAttempts(p.crew)
  {
    GiveUp(DispatchQueued(p.(crew := SpawnWanted(p.config, p.crew, |p.jobs.queue|))))
  }

  // ---------------------------------------------------------------- the handlers

  /** What can happen to the pool: calls of its methods, messages and exits of its workers, and its timers. */
  datatype Event =
    | Request | WaitUntilReady | Prewarm | RecycleAll | Destroy
    | GrammarsLoaded(w: Worker) | ParseResult(w: Worker, id: Option<Job>) | WorkerGone(w: Worker)
    | Timeout(job: Job) | HardTimeout(job: Job)

  /** A worker announces its grammars once, and only armed timers fire. */
  predicate Enabled(p: Pool, e: Event) {
    match e
    case GrammarsLoaded(w) => w in p.crew.pending || w !in p.crew.workers
    case Timeout(job) => job in p.jobs.soft
    case HardTimeout(job) => job in p.jobs.hard
    case _ => true
  }

  function OnGrammarsLoaded(p: Pool, w: Worker): Pool
    requires FreshAttempts(p.crew)
  {
    if w !in p.crew.workers then p
    else Drain(SettleReadyWaiters(p.(crew := p.crew.(pending := p.crew.pending - {w}, idle := p.crew.idle + [w]))))
  }

  /** The jobs once worker `w` has its job settled and none in flight. */
  function Finish(jobs: Jobs, w: Worker, verdict: Verdict): Jobs {
    var left := jobs.(inflight := jobs.inflight - {w});
    if w in jobs.inflight then Settle(left, jobs.inflight[w], verdict) else left
  }

  /** A worker that delivered a result is idle again, or is replaced once it has parsed enough. */
  function Freed(config: Config, c: Crew, w: Worker): (r: Crew)
    ensures FreshAttempts(c) ==> FreshAttempts(r)
  {
    if CountOf(c, w) >= config.recycleInterval then Recycle(config, c, w) else c.(idle := c.idle + [w])
  }

  function OnParseResult(p: Pool, w: Worker, id: Option<Job>): Pool
    requires FreshAttempts(p.crew)
  {
    if w !in p.jobs.inflight || (id.Some? && id.value != p.jobs.inflight[w]) then p
    else Drain(p.(crew := Freed(p.config, p.crew, w), jobs := Finish(p.jobs, w, Resolved)))
  }

  /** A crew that lost worker `w` and replaces it. */
  function Replaced(config: Config, c: Crew, w: Worker, crashes: nat): (r: Crew)
    ensures FreshAttempts(c) ==> FreshAttempts(r)
  {
    SpawnOne(config, RemoveWorker(c, w).(crashCount := c.crashCount + crashes))
  }

  function OnWorkerGone(p: Pool, w: Worker): Pool
    requires FreshAttempts(p.crew)
  {
    if w !in p.crew.workers then p
    else Drain(SettleReadyWaiters(p.(crew := Replaced(p.config, p.crew, w, 1), jobs := Finish(p.jobs, w, Rejected))))
  }

  function OnTimeout(p: Pool, job: Job): Pool
    requires job in p.jobs.soft
  {
    var w := p.jobs.soft[job];
    var jobs := p.jobs.(soft := p.jobs.soft - {job});
    if job in jobs.settled || w !in p.crew.workers then p.(jobs := jobs)
    else p.(jobs := jobs.(hard := jobs.hard[job := w]))
  }

  function OnHardTimeout(p: Pool, job: Job): Pool
    requires FreshAttempts(p.crew) && job in p.jobs.hard
  {
    var w := p.jobs.hard[job];
    var jobs := p.jobs.(hard := p.jobs.hard - {job});
    if job in jobs.settled || w !in p.crew.workers then p.(jobs := jobs)
    else
      Drain(p.(crew := Replaced(p.config, p.crew, w, 0),
          jobs := Settle(jobs.(inflight := jobs.inflight - {w}), job, Rejected)))
  }

  function OnRequest(p: Pool): Pool
    requires FreshAttempts(p.crew)
  {
    if p.crew.destroyed then p
    else Drain(p.(jobs := p.jobs.(queue := p.jobs.queue + [p.jobs.nextId], nextId := p.jobs.nextId + 1)))
  }

  function OnWaitUntilReady(p: Pool): Pool {
    if p.crew.destroyed || p.crew.pending == {} then p else p.(readyWaiters := p.readyWaiters + 1)
  }

  function Prewarmed(config: Config, c: Crew): Crew
    requires FreshAttempts(c)
    decreases config.maxSize - |c.workers|
  {
    if |c.workers| >= config.maxSize then c
    else
      var r := SpawnOne(config, c);
      if |r.workers| == |c.workers| then r else Prewarmed(config, r)
  }

  function RecycleEach(config: Config, c: Crew, workers: seq<Worker>): Crew
    decreases |workers|
  {
    if workers == [] then c else RecycleEach(config, Recycle(config, c, workers[0]), workers[1..])
  }

  /** The jobs whose promises are still open. */
  function Open(jobs: Jobs): set<Job> {
    (set job | job in jobs.inflight.Values && job !in jobs.settled) +
        (set job | job in jobs.queue && job !in jobs.settled)
  }

  /** The jobs of a destroyed pool: the open ones are rejected, and none is left. */
  function Closed(jobs: Jobs): Jobs {
    var open := Open(jobs);
    jobs.(inflight := map[], queue := [], settled := jobs.settled + (map job | job in open :: Rejected),
          soft := jobs.soft - open, hard := jobs.hard - open)
  }

  function OnDestroy(p: Pool): Pool {
    if p.crew.destroyed then p
    else
      Pool(p.config, p.crew.(destroyed := true, workers := {}, pending := {}, parseCounts := map[], idle := []),
          Closed(p.jobs), 0)
  }

  function Step(p: Pool, e: Event): Pool
    requires FreshAttempts(p.crew) && Enabled(p, e)
  {
    match e
    case Request => OnRequest(p)
    case WaitUntilReady => OnWaitUntilReady(p)
    case Prewarm => p.(crew := Prewarmed(p.config, p.crew))
    case RecycleAll => p.(crew := RecycleEach(p.config, p.crew, p.crew.idle))
    case Destroy => OnDestroy(p)
    case GrammarsLoaded(w) => OnGrammarsLoaded(p, w)
    case ParseResult(w, id) => OnParseResult(p, w, id)
    case WorkerGone(w) => OnWorkerGone(p, w)
    case Timeout(job) => OnTimeout(p, job)
    case HardTimeout(job) => OnHardTimeout(p, job)
  }

  // ---------------------------------------------------------------- the invariant

  predicate Distinct(s: seq<nat>) {
    forall i, j :: 0 <= i < j < |s| ==> s[i] != s[j]
  }

  predicate Ascending(s: seq<nat>) {
    forall i, j :: 0 <= i < j < |s| ==> s[i] < s[j]
  }

  /** Every live worker is idle, starting or busy, and only one of these. */
  ghost predicate WorkersPartitioned(idle: seq<Worker>, pending: set<Worker>, busy: set<Worker>, workers: set<Worker>) {
    && Distinct(idle)
    && (forall w :: w in workers <==> w in idle || w in pending || w in busy)
    && (forall w :: w in idle ==> w !in pending && w !in busy)
    && pending !! busy
  }

  /** Every accepted job is queued, in flight on one worker, or settled, and only one of these. */
  ghost predicate JobsPartitioned(queue: seq<Job>, inflight: map<Worker, Job>, settled: set<Job>, nextId: nat) {
    && 1 <= nextId && Ascending(queue)
    && (forall job :: 1 <= job < nextId <==> job in queue || job in inflight.Values || job in settled)
    && (forall job :: job in queue ==> job !in inflight.Values && job !in settled)
    && inflight.Values !! settled
    && (forall v, w :: v in inflight && w in inflight && v != w ==> inflight[v] != inflight[w])
  }

  /** Jobs are dispatched in the order they were requested, each before all that are still queued. */
  ghost predicate InRequestOrder(dispatched: seq<Job>, queue: seq<Job>, nextId: nat) {
    && Ascending(dispatched + queue)
    && (forall job :: job in dispatched + queue ==> job < nextId)
  }

  /** No worker parses more often than this, whatever the interval. */
  function Cap(interval: nat): nat {
    if interval == 0 then 1 else interval
  }

  /** No worker is given more jobs than the cap; an idle one has parses left, and a starting one has had none. */
  ghost predicate CountsBounded(counts: map<Worker, nat>, workers: set<Worker>, idle: seq<Worker>, pending: set<Worker>,
      interval: nat) {
    && counts.Keys == workers
    && (forall w :: w in counts ==> counts[w] <= Cap(interval))
    && (forall w :: w in counts && w in idle ==> counts[w] < Cap(interval))
    && (forall w :: w in counts && w in pending ==> counts[w] == 0)
  }

  /**
   Exactly the jobs in flight have a timer armed, for the worker each was given to, and only one
   of the two timers.
   */
  ghost predicate TimersArmed(soft: map<Job, Worker>, hard: map<Job, Worker>, inflight: map<Worker, Job>) {
    && (forall job :: job in soft ==> soft[job] in inflight && inflight[soft[job]] == job)
    && (forall job :: job in hard ==> hard[job] in inflight && inflight[hard[job]] == job)
    && (forall w :: w in inflight ==> inflight[w] in soft.Keys + hard.Keys)
    && soft.Keys !! hard.Keys
  }

  ghost predicate CrewInv(config: Config, c: Crew, busy: set<Worker>) {
    && FreshAttempts(c)
    && WorkersPartitioned(c.idle, c.pending, busy, c.workers)
    && CountsBounded(c.parseCounts, c.workers, c.idle, c.pending, config.recycleInterval)
    && |c.workers| <= config.maxSize
    && c.crashCount + |c.workers| <= CRASH_BUDGET - 1 + config.maxSize
    && (c.destroyed ==> c.workers == {})
  }

  ghost predicate JobsInv(jobs: Jobs) {
    && JobsPartitioned(jobs.queue, jobs.inflight, jobs.settled.Keys, jobs.nextId)
    && InRequestOrder(jobs.dispatched, jobs.queue, jobs.nextId)
    && TimersArmed(jobs.soft, jobs.hard, jobs.inflight)
  }

  ghost predicate Inv(p: Pool) {
    && CrewInv(p.config, p.crew, p.jobs.inflight.Keys)
    && JobsInv(p.jobs)
    && (p.crew.destroyed ==> p.jobs.queue == [])
  }

  /** A caller waits for readiness only while some worker is starting. */
  predicate WaitersServed(p: Pool) {
    p.readyWaiters > 0 ==> p.crew.pending != {}
  }

  /** No job waits while a worker is idle, nor without any worker. */
  predicate Progress(p: Pool) {
    p.jobs.queue != [] ==> p.crew.idle == [] && p.crew.workers != {}
  }

  /** What holds of the pool between any two events. */
  ghost predicate Sound(p: Pool) {
    Inv(p) && Progress(p) && WaitersServed(p) && p.config.maxSize >= 1
  }

  /** What a later state keeps of an earlier one: verdicts stand, and the log of dispatched jobs only grows. */
  ghost predicate Extends(p: Jobs, r: Jobs) {
    && (forall job :: job in p.settled ==> job in r.settled && r.settled[job] == p.settled[job])
    && p.dispatched <= r.dispatched && p.nextId <= r.nextId
  }

  // ---------------------------------------------------------------- workers

  lemma WorkerAdded(idle: seq<Worker>, pending: set<Worker>, busy: set<Worker>, workers: set<Worker>, w: Worker)
    requires WorkersPartitioned(idle, pending, busy, workers) && w !in workers
    ensures WorkersPartitioned(idle, pending + {w}, busy, workers + {w})
  {
  }

  lemma WorkerReady(idle: seq<Worker>, pending: set<Worker>, busy: set<Worker>, workers: set<Worker>, w: Worker)
    requires WorkersPartitioned(idle, pending, busy, workers) && w in pending + busy
    ensures WorkersPartitioned(idle + [w], pending - {w}, busy - {w}, workers)
  {
  }

  lemma {:induction false} WithoutFacts(idle: seq<Worker>, w: Worker)
    ensures forall x :: x in Without(idle, w) <==> x in idle && x != w
    ensures Distinct(idle) ==> Distinct(Without(idle, w))
    ensures w !in idle ==> Without(idle, w) == idle
  {
    if idle != [] {
      var rest := Without(idle[1..], w);
      WithoutFacts(idle[1..], w);
      assert idle == [idle[0]] + idle[1..];
      if Distinct(idle) {
        assert Distinct(idle[1..]);
        forall k | 0 <= k < |rest| ensures rest[k] != idle[0] {
          assert rest[k] in rest;
          var i :| 0 <= i < |idle[1..]| && idle[1..][i] == rest[k];
          assert idle[i + 1] == rest[k];
        }
      }
    }
  }

  lemma WorkerRemoved(idle: seq<Worker>, pending: set<Worker>, busy: set<Worker>, workers: set<Worker>, w: Worker)
    requires WorkersPartitioned(idle, pending, busy, workers)
    ensures WorkersPartitioned(Without(idle, w), pending - {w}, busy - {w}, workers - {w})
  {
    hide Distinct;
    WithoutFacts(idle, w);
  }

  lemma WorkerTaken(idle: seq<Worker>, pending: set<Worker>, busy: set<Worker>, workers: set<Worker>)
    requires WorkersPartitioned(idle, pending, busy, workers) && idle != []
    ensures WorkersPartitioned(idle[..|idle| - 1], pending, busy + {idle[|idle| - 1]}, workers)
  {
    var rest, w := idle[..|idle| - 1], idle[|idle| - 1];
    assert idle == rest + [w];
    assert forall x :: x in idle <==> x in rest || x == w;
  }

  // ---------------------------------------------------------------- jobs

  lemma JobRequested(queue: seq<Job>, inflight: map<Worker, Job>, settled: set<Job>, nextId: nat, dispatched: seq<Job>)
    requires JobsPartitioned(queue, inflight, settled, nextId) && InRequestOrder(dispatched, queue, nextId)
    ensures JobsPartitioned(queue + [nextId], inflight, settled, nextId + 1) &&
        InRequestOrder(dispatched, queue + [nextId], nextId + 1)
  {
    forall job ensures 1 <= job < nextId + 1 <==> job in queue + [nextId] || job in inflight.Values || job in settled {
      assert 1 <= job < nextId <==> job in queue || job in inflight.Values || job in settled;
    }
    assert dispatched + (queue + [nextId]) == (dispatched + queue) + [nextId];
    assert forall k :: 0 <= k < |queue| ==> queue[k] in queue;
    assert forall k :: 0 <= k < |dispatched + queue| ==> (dispatched + queue)[k] in dispatched + queue;
  }

  lemma JobTaken(queue: seq<Job>, inflight: map<Worker, Job>, settled: set<Job>, nextId: nat, dispatched: seq<Job>,
      w: Worker)
    requires JobsPartitioned(queue, inflight, settled, nextId) && InRequestOrder(dispatched, queue, nextId)
    requires queue != [] && w !in inflight
    ensures JobsPartitioned(queue[1..], inflight[w := queue[0]], settled, nextId)
    ensures InRequestOrder(dispatched + [queue[0]], queue[1..], nextId)
  {
    var rest, job := queue[1..], queue[0];
    assert queue == [job] + rest;
    assert dispatched + [job] + rest == dispatched + queue;
    var taken := inflight[w := job];
    assert forall j :: j in queue <==> j == job || j in rest;
    assert forall j :: j in taken.Values <==> j == job || j in inflight.Values by {
      assert job == taken[w];
      forall j | j in inflight.Values ensures j in taken.Values {
        var v :| v in inflight && inflight[v] == j;
        assert taken[v] == j;
      }
    }
    assert job !in rest by { assert forall k :: 0 <= k < |rest| ==> rest[k] == queue[k + 1]; }
  }

  lemma JobSettled(queue: seq<Job>, inflight: map<Worker, Job>, settled: set<Job>, nextId: nat, w: Worker)
    requires JobsPartitioned(queue, inflight, settled, nextId) && w in inflight
    ensures inflight[w] !in settled
    ensures JobsPartitioned(queue, inflight - {w}, settled + {inflight[w]}, nextId)
  {
    hide Ascending;
    var left, job := inflight - {w}, inflight[w];
    assert forall j :: j in left.Values <==> j in inflight.Values && j != job by {
      forall j | j in inflight.Values && j != job ensures j in left.Values {
        var v :| v in inflight && inflight[v] == j;
        assert left[v] == j;
      }
      forall j | j in left.Values ensures j in inflight.Values && j != job {
        var v :| v in left && left[v] == j;
        assert inflight[v] == j;
      }
    }
  }

  lemma JobsGivenUp(queue: seq<Job>, inflight: map<Worker, Job>, settled: set<Job>, after: set<Job>, nextId: nat,
      dispatched: seq<Job>)
    requires JobsPartitioned(queue, inflight, settled, nextId) && InRequestOrder(dispatched, queue, nextId)
    requires forall job :: job in after <==> job in settled || job in queue
    ensures JobsPartitioned([], inflight, after, nextId)
    ensures InRequestOrder(dispatched, [], nextId)
  {
    assert dispatched + [] == (dispatched + queue)[..|dispatched|];
    var all, none := dispatched + queue, dispatched + [];
    forall i, j | 0 <= i < j < |none| ensures none[i] < none[j] {
      assert none[i] == all[i] && none[j] == all[j];
    }
    forall job | job in none ensures job < nextId {
      assert job in all;
    }
  }

  // ---------------------------------------------------------------- parse counts and timers

  lemma TimersAfterTake(soft: map<Job, Worker>, hard: map<Job, Worker>, inflight: map<Worker, Job>, w: Worker, job: Job)
    requires TimersArmed(soft, hard, inflight) && w !in inflight && job !in inflight.Values
    ensures TimersArmed(soft[job := w], hard, inflight[w := job])
  {
    forall other | other in soft.Keys + hard.Keys ensures other != job {
      assert other in inflight.Values;
    }
  }

  lemma TimersAfterSettle(soft: map<Job, Worker>, hard: map<Job, Worker>, inflight: map<Worker, Job>, w: Worker)
    requires TimersArmed(soft, hard, inflight) && w in inflight
    requires forall v :: v in inflight && v != w ==> inflight[v] != inflight[w]
    ensures TimersArmed(soft - {inflight[w]}, hard - {inflight[w]}, inflight - {w})
  {
  }

  lemma CountAdded(counts: map<Worker, nat>, workers: set<Worker>, idle: seq<Worker>, pending: set<Worker>,
      interval: nat, w: Worker)
    requires CountsBounded(counts, workers, idle, pending, interval) && w !in idle
    ensures CountsBounded(counts[w := 0], workers + {w}, idle, pending + {w}, interval)
  {
  }

  lemma CountReady(counts: map<Worker, nat>, workers: set<Worker>, idle: seq<Worker>, pending: set<Worker>,
      interval: nat, w: Worker)
    requires CountsBounded(counts, workers, idle, pending, interval) && w in workers
    requires w in pending || counts[w] < Cap(interval)
    ensures CountsBounded(counts, workers, idle + [w], pending - {w}, interval)
  {
  }

  lemma CountRemoved(counts: map<Worker, nat>, workers: set<Worker>, idle: seq<Worker>, pending: set<Worker>,
      interval: nat, w: Worker)
    requires CountsBounded(counts, workers, idle, pending, interval)
    ensures CountsBounded(counts - {w}, workers - {w}, Without(idle, w), pending - {w}, interval)
  {
    WithoutFacts(idle, w);
  }

  lemma CountTaken(counts: map<Worker, nat>, workers: set<Worker>, idle: seq<Worker>, pending: set<Worker>,
      interval: nat)
    requires CountsBounded(counts, workers, idle, pending, interval) && idle != []
    requires Distinct(idle) && idle[|idle| - 1] in workers && idle[|idle| - 1] !in pending
    ensures var w := idle[|idle| - 1];
        CountsBounded(counts[w := counts[w] + 1], workers, idle[..|idle| - 1], pending, interval)
  {
    var rest, w := idle[..|idle| - 1], idle[|idle| - 1];
    assert idle == rest + [w];
    assert w in idle && w !in rest;
  }

  // ---------------------------------------------------------------- the crew

  lemma CrewFacts(config: Config, c: Crew, busy: set<Worker>)
    requires CrewInv(config, c, busy)
    ensures forall w :: w in c.idle ==> w in c.workers && w !in c.pending && w !in busy
    ensures c.pending <= c.workers && busy <= c.workers && c.pending !! busy
    ensures forall w :: w in c.workers ==> w in c.idle || w in c.pending || w in busy
    ensures Distinct(c.idle) && c.parseCounts.Keys == c.workers && FreshAttempts(c)
    ensures c.idle != [] ==> c.idle[0] in c.workers
  {
  }

  lemma IdleIsLive(config: Config, c: Crew, busy: set<Worker>, w: Worker)
    requires CrewInv(config, c, busy) && w !in c.workers
    ensures w !in c.idle
  {
  }

  /** A busy worker is live and not starting. */
  lemma BusyIsLive(config: Config, c: Crew, busy: set<Worker>, w: Worker)
    requires CrewInv(config, c, busy) && w in busy
    ensures w in c.workers && w !in c.pending && FreshAttempts(c) && c.pending - {w} == c.pending
  {
  }

  lemma LastIsFree(config: Config, c: Crew, busy: set<Worker>)
    requires CrewInv(config, c, busy) && c.idle != []
    ensures var w := c.idle[|c.idle| - 1];
        w !in busy && w in c.workers && w !in c.pending && w in c.parseCounts && Distinct(c.idle)
  {
    assert c.idle[|c.idle| - 1] in c.idle;
  }

  lemma Fresh(config: Config, c: Crew, busy: set<Worker>)
    requires CrewInv(config, c, busy)
    ensures FreshAttempts(c)
  {
  }

  /** Everything a new worker leaves as it was. */
  ghost predicate OnlySpawned(c: Crew, r: Crew) {
    r.idle == c.idle && r.destroyed == c.destroyed && c.pending <= r.pending && c.workers <= r.workers
  }

  lemma SpawnKeeps(config: Config, c: Crew, busy: set<Worker>)
    requires CrewInv(config, c, busy)
    ensures CrewInv(config, SpawnOne(config, c), busy) && OnlySpawned(c, SpawnOne(config, c))
  {
    hide WorkersPartitioned, CountsBounded;
    if Healthy(c) && |c.workers| < config.maxSize && config.created(c.attempts) {
      IdleIsLive(config, c, busy, c.attempts);
      WorkerAdded(c.idle, c.pending, busy, c.workers, c.attempts);
      CountAdded(c.parseCounts, c.workers, c.idle, c.pending, config.recycleInterval, c.attempts);
    }
  }

  lemma {:induction false} SpawnWantedKeeps(config: Config, c: Crew, busy: set<Worker>, queued: nat)
    requires CrewInv(config, c, busy)
    ensures var r := SpawnWanted(config, c, queued); CrewInv(config, r, busy) && OnlySpawned(c, r)
    decreases SpawnMeasure(config, c)
  {
    hide WorkersPartitioned, CountsBounded;
    if WantsWorker(config, c, queued) {
      SpawnKeeps(config, c, busy);
      SpawnWantedKeeps(config, SpawnOne(config, c), busy, queued);
    }
  }

  lemma {:induction false} PrewarmKeeps(config: Config, c: Crew, busy: set<Worker>)
    requires CrewInv(config, c, busy)
    ensures var r := Prewarmed(config, c); CrewInv(config, r, busy) && OnlySpawned(c, r)
    decreases config.maxSize - |c.workers|
  {
    hide WorkersPartitioned, CountsBounded;
    SpawnKeeps(config, c, busy);
    if |c.workers| < config.maxSize && |SpawnOne(config, c).workers| != |c.workers| {
      assert |c.workers| < |SpawnOne(config, c).workers|;
      PrewarmKeeps(config, SpawnOne(config, c), busy);
    }
  }

  lemma RemoveKeeps(config: Config, c: Crew, busy: set<Worker>, w: Worker)
    requires CrewInv(config, c, busy) && w in c.workers
    ensures CrewInv(config, RemoveWorker(c, w), busy - {w})
    ensures |RemoveWorker(c, w).workers| == |c.workers| - 1
  {
    hide WorkersPartitioned, CountsBounded, Without;
    WorkerRemoved(c.idle, c.pending, busy, c.workers, w);
    CountRemoved(c.parseCounts, c.workers, c.idle, c.pending, config.recycleInterval, w);
  }

  /** Losing a worker leaves room in the crash budget for one more crash. */
  lemma ReplacedKeeps(config: Config, c: Crew, busy: set<Worker>, w: Worker, crashes: nat)
    requires CrewInv(config, c, busy) && w in c.workers && crashes <= 1
    ensures var r := Replaced(config, c, w, crashes);
        CrewInv(config, r, busy - {w}) && c.pending - {w} <= r.pending && r.destroyed == c.destroyed
  {
    hide WorkersPartitioned, CountsBounded, Without;
    RemoveKeeps(config, c, busy, w);
    SpawnKeeps(config, RemoveWorker(c, w).(crashCount := c.crashCount + crashes), busy - {w});
  }

  lemma {:induction false} RecycleEachKeeps(config: Config, c: Crew, busy: set<Worker>, workers: seq<Worker>)
    requires CrewInv(config, c, busy) && Distinct(workers) && forall w :: w in workers ==> w in c.idle
    ensures var r := RecycleEach(config, c, workers);
            CrewInv(config, r, busy) && c.pending <= r.pending && r.destroyed == c.destroyed &&
                (workers == [] ==> r == c)
    decreases |workers|
  {
    hide WorkersPartitioned, CountsBounded, Without, SpawnOne;
    if workers != [] {
      var w, rest := workers[0], workers[1..];
      assert w in workers;
      CrewFacts(config, c, busy);
      assert busy - {w} == busy && c.pending - {w} == c.pending;
      RemoveKeeps(config, c, busy, w);
      SpawnKeeps(config, RemoveWorker(c, w), busy);
      WithoutFacts(c.idle, w);
      forall x | x in rest ensures x in Recycle(config, c, w).idle {
        var k :| 0 <= k < |rest| && rest[k] == x;
        assert workers[k + 1] == x && x in workers;
      }
      RecycleEachKeeps(config, Recycle(config, c, w), busy, rest);
    }
  }

  lemma FreedKeeps(config: Config, c: Crew, busy: set<Worker>, w: Worker)
    requires CrewInv(config, c, busy) && w in busy
    ensures var r := Freed(config, c, w);
        CrewInv(config, r, busy - {w}) && c.pending <= r.pending && r.destroyed == c.destroyed
  {
    CrewFacts(config, c, busy);
    hide WorkersPartitioned, CountsBounded, Without;
    assert c.pending - {w} == c.pending;
    if CountOf(c, w) >= config.recycleInterval {
      RemoveKeeps(config, c, busy, w);
      SpawnKeeps(config, RemoveWorker(c, w), busy - {w});
    } else {
      WorkerReady(c.idle, c.pending, busy, c.workers, w);
      CountReady(c.parseCounts, c.workers, c.idle, c.pending, config.recycleInterval, w);
    }
  }

  lemma LoadedKeeps(config: Config, c: Crew, busy: set<Worker>, w: Worker)
    requires CrewInv(config, c, busy) && w in c.pending
    ensures CrewInv(config, c.(pending := c.pending - {w}, idle := c.idle + [w]), busy)
  {
    CrewFacts(config, c, busy);
    hide WorkersPartitioned, CountsBounded;
    assert busy - {w} == busy;
    WorkerReady(c.idle, c.pending, busy, c.workers, w);
    CountReady(c.parseCounts, c.workers, c.idle, c.pending, config.recycleInterval, w);
  }

  // ---------------------------------------------------------------- the jobs

  lemma JobsFacts(jobs: Jobs)
    requires JobsInv(jobs)
    ensures forall job :: job in jobs.queue ==> job !in jobs.inflight.Values && job !in jobs.settled
    ensures jobs.inflight.Values !! jobs.settled.Keys
    ensures forall job :: job in jobs.soft || job in jobs.hard ==> job in jobs.inflight.Values
    ensures forall job :: job in jobs.hard ==> jobs.hard[job] in jobs.inflight && jobs.inflight[jobs.hard[job]] == job
    ensures forall job :: job in jobs.soft ==> jobs.soft[job] in jobs.inflight && jobs.inflight[jobs.soft[job]] == job
  {
  }

  lemma FinishKeeps(jobs: Jobs, w: Worker, verdict: Verdict)
    requires JobsInv(jobs)
    ensures var r := Finish(jobs, w, verdict);
            JobsInv(r) && Extends(jobs, r) && r.inflight.Keys == jobs.inflight.Keys - {w} && r.queue == jobs.queue
  {
    hide JobsPartitioned, InRequestOrder, TimersArmed;
    if w in jobs.inflight {
      var job := jobs.inflight[w];
      JobSettled(jobs.queue, jobs.inflight, jobs.settled.Keys, jobs.nextId, w);
      assert jobs.settled[job := verdict].Keys == jobs.settled.Keys + {job};
      OneWorkerEach(jobs.queue, jobs.inflight, jobs.settled.Keys, jobs.nextId);
      TimersAfterSettle(jobs.soft, jobs.hard, jobs.inflight, w);
    } else {
      assert jobs.inflight - {w} == jobs.inflight;
    }
  }

  lemma OneWorkerEach(queue: seq<Job>, inflight: map<Worker, Job>, settled: set<Job>, nextId: nat)
    requires JobsPartitioned(queue, inflight, settled, nextId)
    ensures forall v, w :: v in inflight && w in inflight && v != w ==> inflight[v] != inflight[w]
  {
  }

  lemma {:induction false} SettleEachFacts(jobs: Jobs, each: seq<Job>, verdict: Verdict)
    ensures var r := SettleEach(jobs, each, verdict);
            && r == jobs.(settled := r.settled, soft := r.soft, hard := r.hard)
            && (forall job :: job in r.settled <==> job in jobs.settled || job in each)
            && (forall job :: job in jobs.settled ==> r.settled[job] == jobs.settled[job])
            && (forall job :: job in r.settled && job !in jobs.settled ==> r.settled[job] == verdict)
            && r.soft.Keys <= jobs.soft.Keys && r.hard.Keys <= jobs.hard.Keys
    decreases |each|
  {
    if each != [] {
      SettleEachFacts(Settle(jobs, each[0], verdict), each[1..], verdict);
      assert each == [each[0]] + each[1..];
    }
  }

  lemma GiveUpKeeps(p: Pool)
    requires Inv(p)
    ensures Inv(GiveUp(p)) && Extends(p.jobs, GiveUp(p).jobs)
    ensures GiveUp(p) == p.(jobs := GiveUp(p).jobs) && GiveUp(p).jobs.inflight == p.jobs.inflight
    ensures GiveUp(p).jobs.queue == (if p.crew.idle == [] && p.crew.workers == {} then [] else p.jobs.queue)
  {
    CrewFacts(p.config, p.crew, p.jobs.inflight.Keys);
    JobsFacts(p.jobs);
    hide CrewInv, JobsPartitioned, InRequestOrder;
    var jobs := p.jobs;
    if jobs.queue != [] && p.crew.idle == [] && p.crew.pending == {} && p.crew.workers == {} {
      SettleEachFacts(jobs.(queue := []), jobs.queue, Rejected);
      assert jobs.soft == map[] && jobs.hard == map[];
      JobsGivenUp(jobs.queue, jobs.inflight, jobs.settled.Keys, GiveUp(p).jobs.settled.Keys, jobs.nextId,
          jobs.dispatched);
    }
  }

  // ---------------------------------------------------------------- draining

  lemma TakeKeepsCrew(config: Config, c: Crew, busy: set<Worker>)
    requires CrewInv(config, c, busy) && c.idle != []
    ensures CrewInv(config, CrewTaking(c), busy + {c.idle[|c.idle| - 1]})
  {
    hide WorkersPartitioned, CountsBounded, Distinct, FreshAttempts;
    LastIsFree(config, c, busy);
    WorkerTaken(c.idle, c.pending, busy, c.workers);
    CountTaken(c.parseCounts, c.workers, c.idle, c.pending, config.recycleInterval);
    SameAttempts(c, CrewTaking(c));
  }

  lemma SameAttempts(c: Crew, r: Crew)
    requires FreshAttempts(c) && r.workers <= c.workers && r.attempts == c.attempts
    ensures FreshAttempts(r)
  {
  }

  lemma TakeKeepsJobs(jobs: Jobs, w: Worker)
    requires JobsInv(jobs) && jobs.queue != [] && w !in jobs.inflight
    ensures JobsInv(JobsTaking(jobs, w))
  {
    JobsFacts(jobs);
    assert jobs.queue[0] in jobs.queue;
    hide JobsPartitioned, InRequestOrder, TimersArmed;
    JobTaken(jobs.queue, jobs.inflight, jobs.settled.Keys, jobs.nextId, jobs.dispatched, w);
    TimersAfterTake(jobs.soft, jobs.hard, jobs.inflight, w, jobs.queue[0]);
  }

  lemma DestroyedIsIdle(p: Pool)
    requires Inv(p) && p.crew.idle != []
    ensures !p.crew.destroyed && !CrewTaking(p.crew).destroyed
  {
    assert p.crew.idle[0] in p.crew.workers;
  }

  lemma TakeKeeps(p: Pool)
    requires Inv(p) && p.crew.idle != [] && p.jobs.queue != []
    ensures Inv(TakeOne(p))
  {
    hide CrewInv, JobsInv, CrewTaking;
    var w := p.crew.idle[|p.crew.idle| - 1];
    LastIsFree(p.config, p.crew, p.jobs.inflight.Keys);
    TakeKeepsCrew(p.config, p.crew, p.jobs.inflight.Keys);
    TakeKeepsJobs(p.jobs, w);
    assert JobsTaking(p.jobs, w).inflight.Keys == p.jobs.inflight.Keys + {w};
    DestroyedIsIdle(p);
  }

  lemma FirstIsOpen(p: Pool)
    requires Inv(p) && p.jobs.queue != []
    ensures p.jobs.queue[0] !in p.jobs.settled
  {
    JobsFacts(p.jobs);
    assert p.jobs.queue[0] in p.jobs.queue;
  }

  lemma TakeLeaves(p: Pool)
    requires p.crew.idle != [] && p.jobs.queue != []
    ensures var r := TakeOne(p);
            && Extends(p.jobs, r.jobs) && |r.jobs.queue| < |p.jobs.queue|
            && r.crew.workers == p.crew.workers && r.crew.pending == p.crew.pending &&
                r.crew.destroyed == p.crew.destroyed
  {
  }

  lemma {:induction false} DispatchQueuedKeeps(p: Pool)
    requires Inv(p)
    ensures var r := DispatchQueued(p);
            && Inv(r) && Extends(p.jobs, r.jobs) && r.config == p.config && r.readyWaiters == p.readyWaiters
            && r.crew.workers == p.crew.workers && r.crew.pending == p.crew.pending &&
                r.crew.destroyed == p.crew.destroyed
            && (r.jobs.queue == [] || r.crew.idle == [])
    decreases |p.jobs.queue|
  {
    if p.crew.idle != [] && p.jobs.queue != [] {
      hide Inv, CrewTaking, JobsTaking;
      FirstIsOpen(p);
      assert p.(jobs := p.jobs.(queue := DropSettled(p.jobs.queue, p.jobs.settled))) == p;
      TakeKeeps(p);
      TakeLeaves(p);
      DispatchQueuedKeeps(TakeOne(p));
    }
  }

  lemma DrainKeeps(p: Pool)
    requires Inv(p) && p.config.maxSize >= 1 && WaitersServed(p)
    ensures Sound(Drain(p)) && Extends(p.jobs, Drain(p).jobs) && Drain(p).config == p.config
  {
    Fresh(p.config, p.crew, p.jobs.inflight.Keys);
    hide CrewInv, JobsInv, SpawnWanted, DispatchQueued, GiveUp;
    SpawnWantedKeeps(p.config, p.crew, p.jobs.inflight.Keys, |p.jobs.queue|);
    var q := p.(crew := SpawnWanted(p.config, p.crew, |p.jobs.queue|));
    DispatchQueuedKeeps(q);
    GiveUpKeeps(DispatchQueued(q));
  }

  // ---------------------------------------------------------------- the handlers keep it

  lemma RequestKeeps(p: Pool)
    requires Sound(p)
    ensures Sound(OnRequest(p)) && Extends(p.jobs, OnRequest(p).jobs) && OnRequest(p).config == p.config
  {
    hide CrewInv, JobsPartitioned, InRequestOrder, TimersArmed, Drain;
    if !p.crew.destroyed {
      JobRequested(p.jobs.queue, p.jobs.inflight, p.jobs.settled.Keys, p.jobs.nextId, p.jobs.dispatched);
      DrainKeeps(p.(jobs := p.jobs.(queue := p.jobs.queue + [p.jobs.nextId], nextId := p.jobs.nextId + 1)));
    }
  }

  lemma GrammarsLoadedKeeps(p: Pool, w: Worker)
    requires Sound(p) && Enabled(p, GrammarsLoaded(w))
    ensures var r := OnGrammarsLoaded(p, w); Sound(r) && Extends(p.jobs, r.jobs) && r.config == p.config
  {
    hide CrewInv, JobsInv, Drain;
    if w in p.crew.workers {
      LoadedKeeps(p.config, p.crew, p.jobs.inflight.Keys, w);
      DrainKeeps(SettleReadyWaiters(p.(crew := p.crew.(pending := p.crew.pending - {w}, idle := p.crew.idle + [w]))));
    }
  }

  lemma ParseResultKeeps(p: Pool, w: Worker, id: Option<Job>)
    requires Sound(p)
    ensures var r := OnParseResult(p, w, id); Sound(r) && Extends(p.jobs, r.jobs) && r.config == p.config
  {
    hide CrewInv, JobsInv, Drain, Freed, Finish;
    if w in p.jobs.inflight {
      FreedKeeps(p.config, p.crew, p.jobs.inflight.Keys, w);
      FinishKeeps(p.jobs, w, Resolved);
      DrainKeeps(p.(crew := Freed(p.config, p.crew, w), jobs := Finish(p.jobs, w, Resolved)));
    }
  }

  lemma WorkerGoneKeeps(p: Pool, w: Worker)
    requires Sound(p)
    ensures var r := OnWorkerGone(p, w); Sound(r) && Extends(p.jobs, r.jobs) && r.config == p.config
  {
    hide CrewInv, JobsInv, Drain, Replaced, Finish;
    if w in p.crew.workers {
      ReplacedKeeps(p.config, p.crew, p.jobs.inflight.Keys, w, 1);
      FinishKeeps(p.jobs, w, Rejected);
      DrainKeeps(SettleReadyWaiters(p.(crew := Replaced(p.config, p.crew, w, 1), jobs := Finish(p.jobs, w, Rejected))));
    }
  }

  /** The soft timer's end arms the hard timer: the worker that has the job is live. */
  lemma TimeoutArms(jobs: Jobs, job: Job)
    requires JobsInv(jobs) && job in jobs.soft
    ensures job !in jobs.settled && jobs.soft[job] in jobs.inflight
    ensures JobsInv(jobs.(soft := jobs.soft - {job}, hard := jobs.hard[job := jobs.soft[job]]))
  {
    JobsFacts(jobs);
    hide JobsPartitioned, InRequestOrder;
  }

  lemma TimeoutKeeps(p: Pool, job: Job)
    requires Sound(p) && job in p.jobs.soft
    ensures var r := OnTimeout(p, job); Sound(r) && Extends(p.jobs, r.jobs) && r.config == p.config
  {
    TimeoutArms(p.jobs, job);
    BusyIsLive(p.config, p.crew, p.jobs.inflight.Keys, p.jobs.soft[job]);
    hide CrewInv, JobsInv;
    assert OnTimeout(p, job) == p.(jobs := p.jobs.(soft := p.jobs.soft - {job},
        hard := p.jobs.hard[job := p.jobs.soft[job]]));
  }

  lemma HardTimeoutFinishes(jobs: Jobs, job: Job)
    requires JobsInv(jobs) && job in jobs.hard
    ensures var w, rest := jobs.hard[job], jobs.(hard := jobs.hard - {job});
            && w in jobs.inflight && job !in jobs.settled
            && Settle(rest.(inflight := rest.inflight - {w}), job, Rejected) == Finish(jobs, w, Rejected)
  {
    JobsFacts(jobs);
    hide JobsInv;
    assert (jobs.hard - {job}) - {job} == jobs.hard - {job};
  }

  lemma HardTimeoutKeeps(p: Pool, job: Job)
    requires Sound(p) && job in p.jobs.hard
    ensures var r := OnHardTimeout(p, job); Sound(r) && Extends(p.jobs, r.jobs) && r.config == p.config
  {
    hide CrewInv, JobsInv, Drain, Replaced, Settle, Finish;
    HardTimeoutFinishes(p.jobs, job);
    var w := p.jobs.hard[job];
    BusyIsLive(p.config, p.crew, p.jobs.inflight.Keys, w);
    FinishKeeps(p.jobs, w, Rejected);
    ReplacedKeeps(p.config, p.crew, p.jobs.inflight.Keys, w, 0);
    DrainKeeps(p.(crew := Replaced(p.config, p.crew, w, 0), jobs := Finish(p.jobs, w, Rejected)));
  }

  lemma ClosedKeeps(jobs: Jobs)
    requires JobsInv(jobs)
    ensures JobsInv(Closed(jobs)) && Extends(jobs, Closed(jobs))
  {
    JobsFacts(jobs);
    hide JobsPartitioned, InRequestOrder, Ascending;
    var r := Closed(jobs);
    assert r.soft == map[] && r.hard == map[];
    AllGivenUp(jobs.queue, jobs.inflight, jobs.settled.Keys, r.settled.Keys, jobs.nextId, jobs.dispatched);
  }

  lemma DestroyKeeps(p: Pool)
    requires Sound(p)
    ensures Sound(OnDestroy(p)) && Extends(p.jobs, OnDestroy(p).jobs) && OnDestroy(p).config == p.config
  {
    hide JobsInv, Closed;
    ClosedKeeps(p.jobs);
    NoneLeft(p.config, p.crew, p.jobs);
  }

  lemma NoneLeft(config: Config, c: Crew, jobs: Jobs)
    requires CrewInv(config, c, jobs.inflight.Keys)
    ensures CrewInv(config, c.(destroyed := true, workers := {}, pending := {}, parseCounts := map[], idle := []), {})
    ensures Closed(jobs).inflight.Keys == {} && Closed(jobs).queue == []
  {
    hide WorkersPartitioned, CountsBounded;
    NoCrew(config.recycleInterval);
  }

  lemma NoCrew(interval: nat)
    ensures WorkersPartitioned([], {}, {}, {}) && CountsBounded(map[], {}, [], {}, interval)
  {
  }

  lemma AllGivenUp(queue: seq<Job>, inflight: map<Worker, Job>, settled: set<Job>, after: set<Job>, nextId: nat,
      dispatched: seq<Job>)
    requires JobsPartitioned(queue, inflight, settled, nextId) && InRequestOrder(dispatched, queue, nextId)
    requires forall job :: job in after <==> job in settled || job in inflight.Values || job in queue
    ensures JobsPartitioned([], map[], after, nextId) && InRequestOrder(dispatched, [], nextId)
  {
    JobsGivenUp(queue, inflight, settled, settled + (set job | job in queue), nextId, dispatched);
    hide InRequestOrder;
  }

  lemma CrewOnlyKeeps(p: Pool, c: Crew)
    requires Sound(p) && CrewInv(p.config, c, p.jobs.inflight.Keys)
    requires p.crew.pending <= c.pending && c.destroyed == p.crew.destroyed
    requires p.jobs.queue == [] || (c.idle == p.crew.idle && p.crew.workers <= c.workers)
    ensures Sound(p.(crew := c))
  {
    hide CrewInv, JobsInv;
  }

  // ---------------------------------------------------------------- every run

  lemma StepKeeps(p: Pool, e: Event)
    requires Sound(p) && Enabled(p, e)
    ensures Sound(Step(p, e)) && Extends(p.jobs, Step(p, e).jobs) && Step(p, e).config == p.config
  {
    hide CrewInv, JobsInv, OnRequest, OnDestroy, OnGrammarsLoaded, OnParseResult, OnWorkerGone, OnTimeout,
         OnHardTimeout, RecycleEach, Prewarmed;
    match e
    case Request => RequestKeeps(p);
    case WaitUntilReady =>
    case Prewarm =>
      Fresh(p.config, p.crew, p.jobs.inflight.Keys);
      PrewarmKeeps(p.config, p.crew, p.jobs.inflight.Keys);
      CrewOnlyKeeps(p, Prewarmed(p.config, p.crew));
    case RecycleAll =>
      CrewFacts(p.config, p.crew, p.jobs.inflight.Keys);
      RecycleEachKeeps(p.config, p.crew, p.jobs.inflight.Keys, p.crew.idle);
      CrewOnlyKeeps(p, RecycleEach(p.config, p.crew, p.crew.idle));
    case Destroy => DestroyKeeps(p);
    case GrammarsLoaded(w) => GrammarsLoadedKeeps(p, w);
    case ParseResult(w, id) => ParseResultKeeps(p, w, id);
    case WorkerGone(w) => WorkerGoneKeeps(p, w);
    case Timeout(job) => TimeoutKeeps(p, job);
    case HardTimeout(job) => HardTimeoutKeeps(p, job);
  }

  lemma StartedIsSound(config: Config)
    requires config.maxSize >= 1
    ensures Sound(Started(config))
  {
    var none := Crew([], {}, {}, map[], 0, false, 0);
    assert CrewInv(config, none, {});
    SpawnKeeps(config, none, {});
  }

  /** Something that may happen in state `p` and leads to `r`. */
  ghost predicate Happens(p: Pool, e: Event, r: Pool) {
    FreshAttempts(p.crew) && Enabled(p, e) && r == Step(p, e)
  }

  /** The states between the events of a run, from the pool as it is made. */
  ghost predicate Run(config: Config, states: seq<Pool>, events: seq<Event>) {
    && |states| == |events| + 1 && states[0] == Started(config)
    && (forall i :: 0 <= i < |events| ==> Happens(states[i], events[i], states[i + 1]))
  }

  /** In every state of every run the invariant holds, and what an earlier state settled or dispatched stands. */
  lemma {:induction false} RunIsSound(config: Config, states: seq<Pool>, events: seq<Event>, i: nat, j: nat)
    requires config.maxSize >= 1 && Run(config, states, events) && i <= j < |states|
    ensures Sound(states[j]) && Extends(states[i].jobs, states[j].jobs) && states[j].config == config
    decreases j, i
  {
    hide Sound, Step;
    if j == 0 {
      StartedIsSound(config);
    } else {
      RunIsSound(config, states, events, if i < j then i else 0, j - 1);
      assert Happens(states[j - 1], events[j - 1], states[j]);
      StepKeeps(states[j - 1], events[j - 1]);
    }
  }

  /**
   Every accepted job is in exactly one place. A job in flight has a live worker, and
   exactly one of its two timers is armed, so it will be settled. A queued job waits for
   a live worker that is starting or busy, never beside an idle one.
   */
  lemma EveryJobIsAccountedFor(config: Config, states: seq<Pool>, events: seq<Event>, j: nat, job: Job)
    requires config.maxSize >= 1 && Run(config, states, events) && j < |states| && 1 <= job < states[j].jobs.nextId
    ensures var crew, jobs := states[j].crew, states[j].jobs;
            && (job in jobs.queue || job in jobs.inflight.Values || job in jobs.settled)
            && (job in jobs.settled ==> job !in jobs.queue && job !in jobs.inflight.Values)
            && (job in jobs.inflight.Values ==>
                  && job !in jobs.queue
                  && (job in jobs.soft <==> job !in jobs.hard)
                  && exists w :: w in crew.workers && w in jobs.inflight && jobs.inflight[w] == job)
            && (job in jobs.queue ==>
                crew.idle == [] && !crew.destroyed && exists w :: w in crew.pending || w in jobs.inflight)
  {
    RunIsSound(config, states, events, j, j);
    var crew, jobs := states[j].crew, states[j].jobs;
    CrewFacts(config, crew, jobs.inflight.Keys);
    hide WorkersPartitioned, CountsBounded;
    if job in jobs.inflight.Values {
      var w :| w in jobs.inflight && jobs.inflight[w] == job;
      assert w in crew.workers;
    }
    if job in jobs.queue {
      var w :| w in crew.workers;
      assert w in crew.pending || w in jobs.inflight;
    }
  }

  /** Jobs are handed out in the order they were requested, each once, and before every job still queued. */
  lemma DispatchedInOrder(config: Config, states: seq<Pool>, events: seq<Event>, j: nat)
    requires config.maxSize >= 1 && Run(config, states, events) && j < |states|
    ensures Ascending(states[j].jobs.dispatched)
    ensures forall k, l :: 0 <= k < |states[j].jobs.dispatched| && 0 <= l < |states[j].jobs.queue| ==>
        states[j].jobs.dispatched[k] < states[j].jobs.queue[l]
  {
    hide CrewInv, JobsPartitioned, TimersArmed, Run;
    RunIsSound(config, states, events, j, j);
    var jobs := states[j].jobs;
    var all := jobs.dispatched + jobs.queue;
    assert forall k :: 0 <= k < |jobs.dispatched| ==> jobs.dispatched[k] == all[k];
    assert forall l :: 0 <= l < |jobs.queue| ==> jobs.queue[l] == all[|jobs.dispatched| + l];
  }

  /** The bounds on workers, crashes and parses of a worker. */
  lemma CrewIsBounded(config: Config, states: seq<Pool>, events: seq<Event>, j: nat)
    requires config.maxSize >= 1 && Run(config, states, events) && j < |states|
    ensures var crew := states[j].crew;
            && |crew.workers| <= config.maxSize
            && crew.crashCount + |crew.workers| <= CRASH_BUDGET - 1 + config.maxSize
            && forall w :: w in crew.workers ==>
                w in crew.parseCounts && crew.parseCounts[w] <= Cap(config.recycleInterval)
  {
    RunIsSound(config, states, events, j, j);
  }

  /** Once the pool is destroyed every job is settled, and nothing that happens changes the pool again. */
  lemma DestroyedIsFinal(p: Pool, e: Event)
    requires Sound(p) && p.crew.destroyed && Enabled(p, e)
    ensures Step(p, e) == p
    ensures forall job :: 1 <= job < p.jobs.nextId ==> job in p.jobs.settled
  {
    CrewFacts(p.config, p.crew, p.jobs.inflight.Keys);
    JobsFacts(p.jobs);
    assert p.jobs.soft == map[] && p.jobs.hard == map[];
    hide WorkersPartitioned, CountsBounded, TimersArmed, InRequestOrder;
    assert p.crew.idle == [] && p.jobs.inflight == map[];
  }

  lemma FinishSettles(jobs: Jobs, w: Worker, verdict: Verdict)
    requires JobsInv(jobs) && w in jobs.inflight
    ensures var r, job := Finish(jobs, w, verdict), jobs.inflight[w];
        job !in jobs.settled && job in r.settled && r.settled[job] == verdict
  {
    JobsFacts(jobs);
  }

  lemma ResultDrains(p: Pool, w: Worker, id: Option<Job>)
    requires FreshAttempts(p.crew) && w in p.jobs.inflight && (id == None || id == Some(p.jobs.inflight[w]))
    ensures OnParseResult(p, w, id) == Drain(p.(crew := Freed(p.config, p.crew, w),
        jobs := Finish(p.jobs, w, Resolved)))
  {
    hide Drain, Freed, Finish;
  }

  /** A result for the job in flight resolves it, even after its soft timeout; and it frees no other job's promise. */
  lemma ResultResolves(p: Pool, w: Worker, id: Option<Job>)
    requires Sound(p) && w in p.jobs.inflight && (id == None || id == Some(p.jobs.inflight[w]))
    ensures var job := p.jobs.inflight[w]; var r := Step(p, ParseResult(w, id));
            job !in p.jobs.settled && job in r.jobs.settled && r.jobs.settled[job] == Resolved
  {
    hide CrewInv, JobsInv, Drain, Freed, Finish, OnParseResult;
    FreedKeeps(p.config, p.crew, p.jobs.inflight.Keys, w);
    FinishKeeps(p.jobs, w, Resolved);
    FinishSettles(p.jobs, w, Resolved);
    DrainKeeps(p.(crew := Freed(p.config, p.crew, w), jobs := Finish(p.jobs, w, Resolved)));
    Fresh(p.config, p.crew, p.jobs.inflight.Keys);
    ResultDrains(p, w, id);
  }

  // ---------------------------------------------------------------- a starting worker is not watched

  /** Jobs are queued, every live worker is still starting, and no timer is armed. */
  predicate Unwatched(p: Pool) {
    && p.jobs.queue != [] && p.jobs.inflight == map[] && p.jobs.soft == map[] && p.jobs.hard == map[]
    && p.crew.workers == p.crew.pending != {} && p.crew.idle == [] && !p.crew.destroyed
  }

  /** What could end it: the worker answers or goes, or the pool is destroyed. */
  predicate Ends(p: Pool, e: Event) {
    match e
    case GrammarsLoaded(w) => w in p.crew.workers
    case WorkerGone(w) => w in p.crew.workers
    case Destroy => true
    case _ => false
  }

  ghost predicate OnlyStarting(c: Crew, r: Crew) {
    c.workers <= r.workers == r.pending && r.idle == [] && !r.destroyed
  }

  lemma {:induction false} SpawnOnlyStarts(config: Config, c: Crew, queued: nat)
    requires FreshAttempts(c) && OnlyStarting(c, c)
    ensures OnlyStarting(c, SpawnWanted(config, c, queued))
    decreases SpawnMeasure(config, c)
  {
    if WantsWorker(config, c, queued) {
      SpawnOnlyStarts(config, SpawnOne(config, c), queued);
    }
  }

  lemma {:induction false} PrewarmOnlyStarts(config: Config, c: Crew)
    requires FreshAttempts(c) && OnlyStarting(c, c)
    ensures OnlyStarting(c, Prewarmed(config, c))
    decreases config.maxSize - |c.workers|
  {
    if |c.workers| < config.maxSize && |SpawnOne(config, c).workers| != |c.workers| {
      PrewarmOnlyStarts(config, SpawnOne(config, c));
    }
  }

  /** No timer and no call but `Destroy` ends the wait for a starting worker: the queued jobs stay queued. */
  lemma UnwatchedStays(p: Pool, e: Event)
    requires FreshAttempts(p.crew) && Unwatched(p) && Enabled(p, e) && !Ends(p, e)
    ensures Unwatched(Step(p, e)) && p.jobs.queue <= Step(p, e).jobs.queue
  {
    hide SpawnWanted, Prewarmed;
    if e == Request {
      SpawnOnlyStarts(p.config, p.crew, |p.jobs.queue| + 1);
    } else if e == Prewarm {
      PrewarmOnlyStarts(p.config, p.crew);
    }
  }

  /** Between two events queued jobs are unwatched exactly when none is in flight. */
  lemma QueueIsUnwatched(p: Pool)
    requires Sound(p) && p.jobs.queue != []
    ensures Unwatched(p) <==> p.jobs.inflight == map[]
  {
    if p.jobs.inflight == map[] {
      assert forall w :: w in p.crew.workers <==> w in p.crew.pending;
      assert p.crew.workers == p.crew.pending;
      assert p.jobs.soft == map[] && p.jobs.hard == map[];
    }
  }

  /** Such a pool is one request away from a new one. */
  lemma RequestCanWait(config: Config)
    requires config.maxSize >= 1 && config.created(0)
    ensures var p := Started(config); var r := Step(p, Request);
            Run(config, [p, r], [Request]) && Unwatched(r) && r.jobs.queue == [1]
  {
    var p := Started(config);
    assert p.crew.workers == {0} && p.crew.pending == {0};
    assert !WantsWorker(config, p.crew, 1);
    var r := Step(p, Request);
    assert r.jobs.queue == [1];
    assert Happens(p, Request, r);
  }
}
