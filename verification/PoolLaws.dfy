/**
 What single events do to the pool, said of the states before and after: which verdict a
 promise gets, what counts as a crash, which workers are replaced, and when new ones start.
 */
module PoolLaws {
  import opened Options
  import opened ParsePool

  // ---------------------------------------------------------------- attempts to create workers

  /** The number of attempts from `from` to `to` that fail. */
  function Failures(config: Config, from: nat, to: nat): nat
    decreases to
  {
    if to <= from then 0 else Failures(config, from, to - 1) + (if config.created(to - 1) then 0 else 1)
  }

  lemma {:induction false} FailuresAdd(config: Config, from: nat, between: nat, to: nat)
    requires from <= between <= to
    ensures Failures(config, from, to) == Failures(config, from, between) + Failures(config, between, to)
  {
    if between < to {
      FailuresAdd(config, from, between, to - 1);
    }
  }

  /** The workers that the attempts from `from` to `to` create. */
  function Created(config: Config, from: nat, to: nat): set<Worker> {
    set w | from <= w < to && config.created(w)
  }

  /** Some attempts were made: each adds a starting worker or counts as a crash, and nothing else changes. */
  ghost predicate Spawned(config: Config, c: Crew, r: Crew) {
    && c.attempts <= r.attempts && r.idle == c.idle && r.destroyed == c.destroyed
    && r.workers == c.workers + Created(config, c.attempts, r.attempts)
    && r.pending == c.pending + Created(config, c.attempts, r.attempts)
    && r.crashCount == c.crashCount + Failures(config, c.attempts, r.attempts)
  }

  lemma SpawnedNone(config: Config, c: Crew)
    ensures Spawned(config, c, c)
  {
    OneAttempt(config, c.attempts);
    hide Created, Failures;
  }

  lemma SpawnedOn(config: Config, a: Crew, b: Crew, c: Crew)
    requires Spawned(config, a, b) && Spawned(config, b, c)
    ensures Spawned(config, a, c)
  {
    FailuresAdd(config, a.attempts, b.attempts, c.attempts);
    assert Created(config, a.attempts, c.attempts) ==
      Created(config, a.attempts, b.attempts) + Created(config, b.attempts, c.attempts);
  }

  lemma OneSpawned(config: Config, c: Crew)
    ensures Spawned(config, c, SpawnOne(config, c))
    ensures Healthy(c) && |c.workers| < config.maxSize ==> SpawnOne(config, c).attempts == c.attempts + 1
    ensures !(Healthy(c) && |c.workers| < config.maxSize) ==> SpawnOne(config, c) == c
  {
    hide Spawned, Healthy, FreshAttempts;
    if Healthy(c) && |c.workers| < config.maxSize {
      if config.created(c.attempts) {
        JoinIsSpawned(config, c);
      } else {
        FailureIsSpawned(config, c);
      }
    } else {
      SpawnedNone(config, c);
    }
  }

  lemma JoinIsSpawned(config: Config, c: Crew)
    requires config.created(c.attempts)
    ensures Spawned(config, c, c.(workers := c.workers + {c.attempts}, pending := c.pending + {c.attempts},
        parseCounts := c.parseCounts[c.attempts := 0], attempts := c.attempts + 1))
  {
    OneAttempt(config, c.attempts);
    hide Created, Failures;
  }

  lemma FailureIsSpawned(config: Config, c: Crew)
    requires !config.created(c.attempts)
    ensures Spawned(config, c, c.(crashCount := c.crashCount + 1, attempts := c.attempts + 1))
  {
    OneAttempt(config, c.attempts);
    hide Created, Failures;
    assert c.workers + {} == c.workers && c.pending + {} == c.pending;
  }

  lemma OneAttempt(config: Config, a: nat)
    ensures Created(config, a, a) == {} && Created(config, a, a + 1) == if config.created(a) then {a} else {}
    ensures Failures(config, a, a) == 0 && Failures(config, a, a + 1) == if config.created(a) then 0 else 1
  {
  }

  /** No worker is wanted for so many jobs: the idle and starting ones suffice, or no more may be started. */
  predicate Enough(config: Config, c: Crew, queued: nat) {
    || queued <= |c.idle| + |c.pending| || |c.workers| >= config.maxSize || |c.pending| >= 2 || c.destroyed
    || c.crashCount >= 100
  }

  function Larger(a: nat, b: nat): nat {
    if a < b then b else a
  }

  lemma {:induction false} WantedSpawned(config: Config, c: Crew, queued: nat)
    requires FreshAttempts(c)
    ensures var r := SpawnWanted(config, c, queued);
            && Spawned(config, c, r) && Enough(config, r, queued) && |r.pending| <= Larger(|c.pending|, 2)
            && (Enough(config, c, queued) ==> r == c)
    decreases SpawnMeasure(config, c)
  {
    SpawnedNone(config, c);
    if WantsWorker(config, c, queued) {
      OneSpawned(config, c);
      assert |SpawnOne(config, c).pending| <= |c.pending| + 1;
      hide Spawned, SpawnOne;
      WantedSpawned(config, SpawnOne(config, c), queued);
      SpawnedOn(config, c, SpawnOne(config, c), SpawnWanted(config, c, queued));
    }
  }

  // ---------------------------------------------------------------- draining

  /** Verdicts stand, and every new one is a rejection. */
  ghost predicate OnlyRejects(p: Jobs, r: Jobs) {
    && (forall job :: job in p.settled ==> job in r.settled && r.settled[job] == p.settled[job])
    && (forall job :: job in r.settled && job !in p.settled ==> r.settled[job] == Rejected)
  }

  /** What dispatching does: idle workers take jobs, the first of the queue first. */
  ghost predicate Dispatched(p: Pool, r: Pool) {
    && r.jobs.settled == p.jobs.settled && r.config == p.config && r.readyWaiters == p.readyWaiters
    && r.crew == p.crew.(idle := r.crew.idle, parseCounts := r.crew.parseCounts)
    && |r.jobs.queue| + |p.crew.idle| <= Larger(|p.jobs.queue|, |p.crew.idle|) + |r.crew.idle|
  }

  lemma {:induction false} DispatchFacts(p: Pool)
    ensures Dispatched(p, DispatchQueued(p))
    decreases |p.jobs.queue|
  {
    if p.crew.idle != [] && p.jobs.queue != [] {
      var q := p.(jobs := p.jobs.(queue := DropSettled(p.jobs.queue, p.jobs.settled)));
      if q.jobs.queue != [] {
        DispatchFacts(TakeOne(q));
      }
    }
  }

  lemma GiveUpFacts(p: Pool)
    ensures var r := GiveUp(p);
        OnlyRejects(p.jobs, r.jobs) && r == p.(jobs := r.jobs) && |r.jobs.queue| <= |p.jobs.queue|
    ensures GiveUp(p).jobs.inflight == p.jobs.inflight
  {
    SettleEachFacts(p.jobs.(queue := []), p.jobs.queue, Rejected);
  }

  /** What follows an event that may free a worker or add a job. */
  ghost predicate Drained(p: Pool, r: Pool) {
    && OnlyRejects(p.jobs, r.jobs) && r.config == p.config && r.readyWaiters == p.readyWaiters
    && p.crew.attempts <= r.crew.attempts && r.crew.destroyed == p.crew.destroyed
    && r.crew.workers == p.crew.workers + Created(p.config, p.crew.attempts, r.crew.attempts)
    && r.crew.pending == p.crew.pending + Created(p.config, p.crew.attempts, r.crew.attempts)
    && r.crew.crashCount == p.crew.crashCount + Failures(p.config, p.crew.attempts, r.crew.attempts)
    && |r.crew.pending| <= Larger(|p.crew.pending|, 2)
  }

  lemma DrainFacts(p: Pool)
    requires FreshAttempts(p.crew)
    ensures Drained(p, Drain(p)) && (Drain(p).crew.idle == [] ==>
        Enough(p.config, Drain(p).crew, |Drain(p).jobs.queue|))
  {
    var q := p.(crew := SpawnWanted(p.config, p.crew, |p.jobs.queue|));
    var d := DispatchQueued(q);
    WantedSpawned(p.config, p.crew, |p.jobs.queue|);
    DispatchFacts(q);
    GiveUpFacts(d);
    hide SpawnWanted, DispatchQueued, GiveUp, Spawned, Dispatched, OnlyRejects, Enough, Larger;
    DrainedBy(p, q, d, Drain(p));
  }

  lemma DrainedBy(p: Pool, q: Pool, d: Pool, r: Pool)
    requires Spawned(p.config, p.crew, q.crew) && q == p.(crew := q.crew) && Dispatched(q, d)
    requires Enough(p.config, q.crew, |p.jobs.queue|) && |q.crew.pending| <= Larger(|p.crew.pending|, 2)
    requires OnlyRejects(d.jobs, r.jobs) && r == d.(jobs := r.jobs) && |r.jobs.queue| <= |d.jobs.queue|
    ensures Drained(p, r) && (r.crew.idle == [] ==> Enough(p.config, r.crew, |r.jobs.queue|))
  {
    hide Created, Failures;
  }

  // ---------------------------------------------------------------- verdicts

  /** The event delivers the result of this job. */
  predicate Delivers(p: Pool, e: Event, job: Job) {
    e.ParseResult? && e.w in p.jobs.inflight && p.jobs.inflight[e.w] == job && (e.id == None || e.id == Some(job))
  }

  /** A promise is resolved by the result of its own job, and by nothing else. */
  lemma VerdictsAreJust(p: Pool, e: Event, job: Job)
    requires Sound(p) && Enabled(p, e)
    requires job in Step(p, e).jobs.settled && job !in p.jobs.settled
    ensures Step(p, e).jobs.settled[job] == Resolved <==> Delivers(p, e, job)
  {
    Fresh(p.config, p.crew, p.jobs.inflight.Keys);
    if e.ParseResult? {
      ResultSettles(p, e.w, e.id, job);
    } else {
      hide Inv, Drain;
      OthersReject(p, e);
    }
  }

  lemma ResultSettles(p: Pool, w: Worker, id: Option<Job>, job: Job)
    requires Sound(p)
    requires job in OnParseResult(p, w, id).jobs.settled && job !in p.jobs.settled
    ensures OnParseResult(p, w, id).jobs.settled[job] == Resolved <==> Delivers(p, ParseResult(w, id), job)
  {
    hide Drain, Freed;
    Fresh(p.config, p.crew, p.jobs.inflight.Keys);
    JobsFacts(p.jobs);
    hide Inv;
    DrainFacts(p.(crew := Freed(p.config, p.crew, w), jobs := Finish(p.jobs, w, Resolved)));
  }

  /** Whatever happens otherwise, new verdicts are rejections. */
  lemma OthersReject(p: Pool, e: Event)
    requires FreshAttempts(p.crew) && Enabled(p, e) && !e.ParseResult?
    ensures OnlyRejects(p.jobs, Step(p, e).jobs)
  {
    hide OnRequest, OnGrammarsLoaded, OnParseResult, OnWorkerGone, OnTimeout, OnHardTimeout, OnDestroy, Prewarmed,
         RecycleEach, FreshAttempts, OnlyRejects;
    NothingRejected(p.jobs);
    match e
    case Request => RequestRejects(p);
    case GrammarsLoaded(w) => LoadedRejects(p, w);
    case WorkerGone(w) => GoneRejects(p, w);
    case Timeout(job) => TimeoutRejects(p, job);
    case HardTimeout(job) => HardTimeoutRejects(p, job);
    case Destroy => DestroyRejects(p);
    case _ =>
  }

  lemma NothingRejected(jobs: Jobs)
    ensures OnlyRejects(jobs, jobs)
  {
  }

  lemma RequestRejects(p: Pool)
    requires FreshAttempts(p.crew)
    ensures OnlyRejects(p.jobs, OnRequest(p).jobs)
  {
    hide Drain, FreshAttempts;
    DrainFacts(p.(jobs := p.jobs.(queue := p.jobs.queue + [p.jobs.nextId], nextId := p.jobs.nextId + 1)));
  }

  lemma LoadedRejects(p: Pool, w: Worker)
    requires FreshAttempts(p.crew)
    ensures OnlyRejects(p.jobs, OnGrammarsLoaded(p, w).jobs)
  {
    var crew := p.crew.(pending := p.crew.pending - {w}, idle := p.crew.idle + [w]);
    SameAttempts(p.crew, crew);
    hide Drain, FreshAttempts;
    DrainStarts(p, crew, p.jobs);
  }

  lemma GoneRejects(p: Pool, w: Worker)
    requires FreshAttempts(p.crew)
    ensures OnlyRejects(p.jobs, OnWorkerGone(p, w).jobs)
  {
    hide Drain, FreshAttempts, Replaced;
    DrainStarts(p, Replaced(p.config, p.crew, w, 1), Finish(p.jobs, w, Rejected));
  }

  lemma TimeoutRejects(p: Pool, job: Job)
    requires job in p.jobs.soft
    ensures OnlyRejects(p.jobs, OnTimeout(p, job).jobs)
  {
  }

  lemma HardTimeoutRejects(p: Pool, job: Job)
    requires FreshAttempts(p.crew) && job in p.jobs.hard
    ensures OnlyRejects(p.jobs, OnHardTimeout(p, job).jobs)
  {
    hide Drain, FreshAttempts, Replaced;
    var w, jobs := p.jobs.hard[job], p.jobs.(hard := p.jobs.hard - {job});
    DrainStarts(p, Replaced(p.config, p.crew, w, 0), Settle(jobs.(inflight := jobs.inflight - {w}), job, Rejected));
  }

  lemma DestroyRejects(p: Pool)
    ensures OnlyRejects(p.jobs, OnDestroy(p).jobs)
  {
  }

  /** Draining with another crew and other jobs, whether or not those who wait for readiness were told. */
  lemma DrainStarts(p: Pool, crew: Crew, jobs: Jobs)
    requires FreshAttempts(crew)
    ensures OnlyRejects(jobs, Drain(SettleReadyWaiters(p.(crew := crew, jobs := jobs))).jobs)
    ensures OnlyRejects(jobs, Drain(p.(crew := crew, jobs := jobs)).jobs)
  {
    DrainFacts(SettleReadyWaiters(p.(crew := crew, jobs := jobs)));
    DrainFacts(p.(crew := crew, jobs := jobs));
    hide Drain;
  }

  /** The job of a worker that is lost, or that its hard timer gives up on, is rejected at once. */
  lemma LostJobIsRejected(p: Pool, e: Event, job: Job)
    requires Sound(p) && Enabled(p, e)
    requires e == HardTimeout(job) || (e.WorkerGone? && e.w in p.jobs.inflight && p.jobs.inflight[e.w] == job)
    ensures job !in p.jobs.settled
    ensures job in Step(p, e).jobs.settled && Step(p, e).jobs.settled[job] == Rejected
  {
    JobsFacts(p.jobs);
    Fresh(p.config, p.crew, p.jobs.inflight.Keys);
    if e.HardTimeout? {
      BusyIsLive(p.config, p.crew, p.jobs.inflight.Keys, p.jobs.hard[job]);
      hide Inv, Drain, Replaced, FreshAttempts;
      var w, jobs := p.jobs.hard[job], p.jobs.(hard := p.jobs.hard - {job});
      DrainStarts(p, Replaced(p.config, p.crew, w, 0), Settle(jobs.(inflight := jobs.inflight - {w}), job, Rejected));
    } else {
      BusyIsLive(p.config, p.crew, p.jobs.inflight.Keys, e.w);
      hide Inv, Drain, Replaced, FreshAttempts;
      DrainStarts(p, Replaced(p.config, p.crew, e.w, 1), Finish(p.jobs, e.w, Rejected));
    }
  }

  /** The soft timer settles nothing and disturbs no worker; it only arms the hard timer. */
  lemma SoftTimerOnlyWarns(p: Pool, job: Job)
    requires Sound(p) && Enabled(p, Timeout(job))
    ensures var r := Step(p, Timeout(job));
            && r.crew == p.crew && r.readyWaiters == p.readyWaiters
            && r.jobs == p.jobs.(soft := r.jobs.soft, hard := r.jobs.hard)
            && job !in r.jobs.soft && job in r.jobs.hard && r.jobs.inflight[r.jobs.hard[job]] == job
  {
    TimeoutArms(p.jobs, job);
    BusyIsLive(p.config, p.crew, p.jobs.inflight.Keys, p.jobs.soft[job]);
    hide CrewInv, FreshAttempts, JobsPartitioned, InRequestOrder;
  }

  /** In every run: of the jobs settled, exactly those are resolved whose result was delivered. */
  lemma {:induction false} ResolvedByItsResult(config: Config, states: seq<Pool>, events: seq<Event>, j: nat, job: Job)
    requires Run(config, states, events) && config.maxSize >= 1 && j < |states|
    ensures job in states[j].jobs.settled ==>
        (states[j].jobs.settled[job] == Resolved <==>
         exists i :: 0 <= i < j && Delivers(states[i], events[i], job))
    ensures job !in states[j].jobs.settled ==> forall i :: 0 <= i < j ==> !Delivers(states[i], events[i], job)
  {
    hide Sound, Step, Delivers, Extends;
    if j == 0 {
      NoneSettledFirst(config, states, events, job);
    } else {
      ResolvedByItsResult(config, states, events, j - 1, job);
      RunIsSound(config, states, events, j - 1, j - 1);
      assert Happens(states[j - 1], events[j - 1], states[j]);
      OneStepOn(states[j - 1], events[j - 1], job);
    }
  }

  lemma NoneSettledFirst(config: Config, states: seq<Pool>, events: seq<Event>, job: Job)
    requires Run(config, states, events)
    ensures job !in states[0].jobs.settled
  {
  }

  lemma OneStepOn(p: Pool, e: Event, job: Job)
    requires Sound(p) && Enabled(p, e)
    ensures job in p.jobs.settled ==>
        job in Step(p, e).jobs.settled && Step(p, e).jobs.settled[job] == p.jobs.settled[job] && !Delivers(p, e, job)
    ensures job !in p.jobs.settled && job in Step(p, e).jobs.settled ==>
        (Step(p, e).jobs.settled[job] == Resolved <==> Delivers(p, e, job))
    ensures job !in p.jobs.settled && job !in Step(p, e).jobs.settled ==> !Delivers(p, e, job)
  {
    StepKeeps(p, e);
    JobsFacts(p.jobs);
    hide Sound, Step;
    if job !in p.jobs.settled && job in Step(p, e).jobs.settled { VerdictsAreJust(p, e, job); }
    if Delivers(p, e, job) { ResultResolves(p, e.w, e.id); }
  }

  // ---------------------------------------------------------------- workers

  /** The workers that an event takes away. */
  function Leaving(p: Pool, e: Event): set<Worker>
    requires Enabled(p, e)
  {
    match e
    case WorkerGone(w) => {w}
    case HardTimeout(job) => {p.jobs.hard[job]}
    case ParseResult(w, id) =>
      if w in p.jobs.inflight && (id == None || id == Some(p.jobs.inflight[w])) &&
          CountOf(p.crew, w) >= p.config.recycleInterval then {w} else {}
    case RecycleAll => Members(p.crew.idle)
    case Destroy => p.crew.workers
    case _ => {}
  }

  /** A crew that lost some workers and made some attempts. */
  ghost predicate Changed(config: Config, c: Crew, r: Crew, gone: set<Worker>, crashes: nat) {
    && c.attempts <= r.attempts
    && r.workers == c.workers - gone + Created(config, c.attempts, r.attempts)
    && r.pending == c.pending - gone + Created(config, c.attempts, r.attempts)
    && r.crashCount == c.crashCount + Failures(config, c.attempts, r.attempts) + crashes
  }

  lemma NoneChanged(config: Config, c: Crew)
    ensures Changed(config, c, c, {}, 0)
  {
  }

  lemma ChangedOn(config: Config, a: Crew, b: Crew, c: Crew, gone: set<Worker>, crashes: nat)
    requires Changed(config, a, b, gone, crashes) && Changed(config, b, c, {}, 0)
    ensures Changed(config, a, c, gone, crashes)
  {
    FailuresAdd(config, a.attempts, b.attempts, c.attempts);
    assert Created(config, a.attempts, c.attempts) ==
      Created(config, a.attempts, b.attempts) + Created(config, b.attempts, c.attempts);
  }

  lemma LostAndReplaced(config: Config, c: Crew, w: Worker, crashes: nat)
    ensures var r := Replaced(config, c, w, crashes);
            && Changed(config, c, r, {w}, crashes)
            && (!c.destroyed && c.crashCount + crashes < 100 && |c.workers - {w}| < config.maxSize ==>
                r.attempts == c.attempts + 1)
  {
    hide SpawnOne, Created, Failures, Without, FreshAttempts;
    var left := RemoveWorker(c, w).(crashCount := c.crashCount + crashes);
    OneSpawned(config, left);
    assert Replaced(config, c, w, crashes) == SpawnOne(config, left);
  }

  lemma DrainChanges(p: Pool, crew: Crew, jobs: Jobs, waiters: nat)
    requires FreshAttempts(crew)
    ensures var q := p.(crew := crew, jobs := jobs, readyWaiters := waiters);
            Changed(p.config, crew, Drain(q).crew, {}, 0) && Drain(q).readyWaiters == waiters
            && (Drain(q).crew.idle == [] ==> Enough(p.config, Drain(q).crew, |Drain(q).jobs.queue|))
            && |Drain(q).crew.pending| <= Larger(|crew.pending|, 2)
  {
    hide *;
    var q := p.(crew := crew, jobs := jobs, readyWaiters := waiters);
    DrainFacts(q);
    DrainedChanges(q, Drain(q));
  }

  lemma DrainedChanges(p: Pool, r: Pool)
    requires Drained(p, r)
    ensures Changed(p.config, p.crew, r.crew, {}, 0)
    ensures r.readyWaiters == p.readyWaiters && |r.crew.pending| <= Larger(|p.crew.pending|, 2)
  {
    hide Created, Failures, Larger, OnlyRejects;
    assert p.crew.workers - {} == p.crew.workers && p.crew.pending - {} == p.crew.pending;
  }

  function Members(workers: seq<Worker>): set<Worker> {
    set w | w in workers
  }

  lemma MembersStep(workers: seq<Worker>)
    ensures workers == [] ==> Members(workers) == {}
    ensures workers != [] ==> Members(workers) == {workers[0]} + Members(workers[1..])
    ensures forall w :: w in Members(workers) <==> w in workers
  {
    if workers != [] {
      assert workers == [workers[0]] + workers[1..];
    }
  }

  lemma {:induction false} RecycledChange(config: Config, c: Crew, workers: seq<Worker>)
    requires FreshAttempts(c) && forall w :: w in workers ==> w < c.attempts
    ensures Changed(config, c, RecycleEach(config, c, workers), Members(workers), 0)
    decreases |workers|
  {
    hide *;
    RecycledStep(config, c, workers);
    MembersStep(workers);
    if workers == [] {
      NoneChanged(config, c);
    } else {
      var w, rest := workers[0], workers[1..];
      var one := Recycle(config, c, w);
      assert w in workers && workers == [w] + rest && forall v :: v in rest ==> v in workers;
      RecycleReplaces(config, c, w);
      RecycledChange(config, one, rest);
      MembersStep(rest);
      ChangedTwice(config, c, one, RecycleEach(config, one, rest), w, Members(rest));
    }
  }

  lemma RecycleReplaces(config: Config, c: Crew, w: Worker)
    requires FreshAttempts(c)
    ensures var r := Recycle(config, c, w);
        Changed(config, c, r, {w}, 0) && FreshAttempts(r) && c.attempts <= r.attempts
  {
    hide *;
    LostAndReplaced(config, c, w, 0);
    RecycleIsReplaced(config, c, w);
  }

  lemma RecycleIsReplaced(config: Config, c: Crew, w: Worker)
    requires FreshAttempts(c)
    ensures Recycle(config, c, w) == Replaced(config, c, w, 0) && FreshAttempts(Recycle(config, c, w))
    ensures c.attempts <= Recycle(config, c, w).attempts
  {
    assert RemoveWorker(c, w) == RemoveWorker(c, w).(crashCount := c.crashCount + 0);
    hide Without;
  }

  lemma RecycledStep(config: Config, c: Crew, workers: seq<Worker>)
    ensures RecycleEach(config, c, workers) ==
        if workers == [] then c else RecycleEach(config, Recycle(config, c, workers[0]), workers[1..])
  {
  }

  lemma ChangedTwice(config: Config, a: Crew, b: Crew, c: Crew, w: Worker, gone: set<Worker>)
    requires Changed(config, a, b, {w}, 0) && Changed(config, b, c, gone, 0)
    requires forall v :: v in gone ==> v < a.attempts
    ensures Changed(config, a, c, {w} + gone, 0)
  {
    FailuresAdd(config, a.attempts, b.attempts, c.attempts);
    assert Created(config, a.attempts, c.attempts) ==
      Created(config, a.attempts, b.attempts) + Created(config, b.attempts, c.attempts);
    assert Created(config, a.attempts, b.attempts) !! gone;
    hide Created, Failures;
  }

  lemma {:induction false} PrewarmedChange(config: Config, c: Crew)
    requires FreshAttempts(c)
    ensures var r := Prewarmed(config, c);
            && Spawned(config, c, r)
            && (|r.workers| >= config.maxSize || !Healthy(r) ||
                (c.attempts < r.attempts && !config.created(r.attempts - 1)))
    decreases config.maxSize - |c.workers|
  {
    hide *;
    SpawnedNone(config, c);
    PrewarmedStep(config, c);
    if |c.workers| < config.maxSize {
      var one := SpawnOne(config, c);
      OneSpawned(config, c);
      OneMoreAtMost(config, c);
      if |one.workers| != |c.workers| {
        PrewarmedChange(config, one);
        SpawnedOn(config, c, one, Prewarmed(config, one));
        SpawnedLater(config, c, one);
      }
    }
  }

  lemma PrewarmedStep(config: Config, c: Crew)
    requires FreshAttempts(c)
    ensures Prewarmed(config, c) ==
        if |c.workers| >= config.maxSize || |SpawnOne(config, c).workers| == |c.workers|
        then (if |c.workers| >= config.maxSize then c else SpawnOne(config, c))
        else Prewarmed(config, SpawnOne(config, c))
  {
    hide SpawnOne, FreshAttempts;
  }

  lemma OneMoreAtMost(config: Config, c: Crew)
    requires FreshAttempts(c)
    ensures var r := SpawnOne(config, c);
            && FreshAttempts(r) && |c.workers| <= |r.workers|
            && (Healthy(c) && |c.workers| < config.maxSize && config.created(c.attempts) ==> |r.workers| > |c.workers|)
            && (|r.workers| > |c.workers| || !Healthy(r) || |c.workers| >= config.maxSize ||
                (c.attempts < r.attempts && !config.created(r.attempts - 1)))
  {
  }

  lemma SpawnedLater(config: Config, c: Crew, r: Crew)
    requires Spawned(config, c, r)
    ensures c.attempts <= r.attempts
  {
  }

  /**
   Exactly the workers that the event takes away leave, and exactly those created join. The
   budget for crashes is charged for each failed attempt and each worker that is lost, and
   for nothing else.
   */
  lemma WorkersChange(p: Pool, e: Event)
    requires Sound(p) && Enabled(p, e)
    ensures Moved(p.config, p.crew, Step(p, e).crew, Leaving(p, e),
        if e.WorkerGone? && e.w in p.crew.workers then 1 else 0)
  {
    Known(p);
    NoneMoved(p.config, p.crew);
    hide Sound, OnRequest, OnGrammarsLoaded, OnParseResult, OnWorkerGone, OnTimeout, OnHardTimeout, Prewarmed,
         RecycleEach, FreshAttempts, Created, Failures, Members, Moved;
    match e
    case Request =>
      RequestChanges(p);
      ChangedIsMoved(p.config, p.crew, OnRequest(p).crew, {}, 0);
    case Prewarm =>
      PrewarmedChange(p.config, p.crew);
      SpawnedIsMoved(p.config, p.crew, Prewarmed(p.config, p.crew));
    case RecycleAll =>
      RecycledChange(p.config, p.crew, p.crew.idle);
      ChangedIsMoved(p.config, p.crew, RecycleEach(p.config, p.crew, p.crew.idle), Members(p.crew.idle), 0);
    case GrammarsLoaded(w) => LoadedMoves(p, w);
    case ParseResult(w, id) =>
      ResultChanges(p, w, id);
      ChangedIsMoved(p.config, p.crew, OnParseResult(p, w, id).crew, Leaving(p, e), 0);
    case WorkerGone(w) => GoneMoves(p, w);
    case Timeout(job) => TimeoutChanges(p, job);
    case HardTimeout(job) =>
      HardTimeoutChanges(p, job);
      ChangedIsMoved(p.config, p.crew, OnHardTimeout(p, job).crew, {p.jobs.hard[job]}, 0);
    case Destroy => DestroyMoves(p);
    case _ =>
  }

  /** Workers left, attempts were made and joined those they created, and the budget was charged. */
  ghost predicate Moved(config: Config, c: Crew, r: Crew, gone: set<Worker>, crashes: nat) {
    && c.attempts <= r.attempts
    && r.workers == c.workers - gone + Created(config, c.attempts, r.attempts)
    && r.crashCount == c.crashCount + Failures(config, c.attempts, r.attempts) + crashes
  }

  lemma NoneMoved(config: Config, c: Crew)
    ensures Moved(config, c, c, {}, 0)
  {
    OneAttempt(config, c.attempts);
    hide Created, Failures;
    assert c.workers - {} + {} == c.workers;
  }

  lemma ChangedIsMoved(config: Config, c: Crew, r: Crew, gone: set<Worker>, crashes: nat)
    requires Changed(config, c, r, gone, crashes)
    ensures Moved(config, c, r, gone, crashes)
  {
    hide Created, Failures;
  }

  lemma SpawnedIsMoved(config: Config, c: Crew, r: Crew)
    requires Spawned(config, c, r)
    ensures Moved(config, c, r, {}, 0)
  {
    hide Created, Failures;
    assert c.workers - {} == c.workers;
  }

  lemma LoadedMoves(p: Pool, w: Worker)
    requires FreshAttempts(p.crew)
    ensures Moved(p.config, p.crew, OnGrammarsLoaded(p, w).crew, {}, 0)
  {
    LoadedChanges(p, w);
    hide Created, Failures, OnGrammarsLoaded;
    assert p.crew.workers - {} == p.crew.workers;
  }

  lemma GoneMoves(p: Pool, w: Worker)
    requires FreshAttempts(p.crew)
    ensures Moved(p.config, p.crew, OnWorkerGone(p, w).crew, {w}, if w in p.crew.workers then 1 else 0)
  {
    GoneChanges(p, w);
    OneAttempt(p.config, p.crew.attempts);
    hide Created, Failures, OnWorkerGone;
    if w !in p.crew.workers {
      assert p.crew.workers - {w} + {} == p.crew.workers;
    }
  }

  lemma DestroyMoves(p: Pool)
    requires Sound(p)
    ensures Moved(p.config, p.crew, OnDestroy(p).crew, p.crew.workers, 0)
  {
    OneAttempt(p.config, p.crew.attempts);
    hide Created, Failures, Closed;
    assert p.crew.workers - p.crew.workers + {} == {};
  }

  lemma Known(p: Pool)
    requires Sound(p)
    ensures FreshAttempts(p.crew) && forall w :: w in p.crew.idle ==> w < p.crew.attempts
  {
    CrewFacts(p.config, p.crew, p.jobs.inflight.Keys);
  }

  lemma TimeoutChanges(p: Pool, job: Job)
    requires job in p.jobs.soft
    ensures OnTimeout(p, job).crew == p.crew
  {
  }

  lemma RequestChanges(p: Pool)
    requires FreshAttempts(p.crew)
    ensures Changed(p.config, p.crew, OnRequest(p).crew, {}, 0)
  {
    NoneChanged(p.config, p.crew);
    hide Drain, Changed;
    if !p.crew.destroyed {
      var jobs := p.jobs.(queue := p.jobs.queue + [p.jobs.nextId], nextId := p.jobs.nextId + 1);
      DrainChanges(p, p.crew, jobs, p.readyWaiters);
    }
  }

  lemma LoadedChanges(p: Pool, w: Worker)
    requires FreshAttempts(p.crew)
    ensures var r := OnGrammarsLoaded(p, w).crew;
            && p.crew.attempts <= r.attempts
            && r.workers == p.crew.workers + Created(p.config, p.crew.attempts, r.attempts)
            && r.crashCount == p.crew.crashCount + Failures(p.config, p.crew.attempts, r.attempts)
  {
    hide Drain, Failures, Created;
    if w in p.crew.workers {
      var crew := p.crew.(pending := p.crew.pending - {w}, idle := p.crew.idle + [w]);
      DrainChanges(p, crew, p.jobs, p.readyWaiters);
      DrainChanges(p, crew, p.jobs, 0);
    } else {
      NoneChanged(p.config, p.crew);
    }
  }

  lemma ResultChanges(p: Pool, w: Worker, id: Option<Job>)
    requires FreshAttempts(p.crew)
    ensures Changed(p.config, p.crew, OnParseResult(p, w, id).crew, Leaving(p, ParseResult(w, id)), 0)
  {
    NoneChanged(p.config, p.crew);
    hide Drain, Finish, Changed, Freed;
    if w in p.jobs.inflight && (id == None || id == Some(p.jobs.inflight[w])) {
      var crew := Freed(p.config, p.crew, w);
      DrainChanges(p, crew, Finish(p.jobs, w, Resolved), p.readyWaiters);
      FreedChanges(p.config, p.crew, w);
      assert Changed(p.config, p.crew, crew, Leaving(p, ParseResult(w, id)), 0);
      ChangedOn(p.config, p.crew, crew, OnParseResult(p, w, id).crew, Leaving(p, ParseResult(w, id)), 0);
    }
  }

  lemma FreedChanges(config: Config, c: Crew, w: Worker)
    ensures Changed(config, c, Freed(config, c, w), if CountOf(c, w) >= config.recycleInterval then {w} else {}, 0)
  {
    NoneChanged(config, c);
    LostAndReplaced(config, c, w, 0);
    assert Created(config, c.attempts, c.attempts) == {};
    hide Created, Failures, SpawnOne;
    assert Recycle(config, c, w) == Replaced(config, c, w, 0);
  }

  lemma GoneChanges(p: Pool, w: Worker)
    requires FreshAttempts(p.crew)
    ensures w in p.crew.workers ==> Changed(p.config, p.crew, OnWorkerGone(p, w).crew, {w}, 1)
    ensures w !in p.crew.workers ==> OnWorkerGone(p, w) == p
  {
    hide Drain, Finish, Changed, Replaced;
    if w in p.crew.workers {
      var crew, jobs := Replaced(p.config, p.crew, w, 1), Finish(p.jobs, w, Rejected);
      DrainChanges(p, crew, jobs, p.readyWaiters);
      DrainChanges(p, crew, jobs, 0);
      LostAndReplaced(p.config, p.crew, w, 1);
      ChangedOn(p.config, p.crew, crew, OnWorkerGone(p, w).crew, {w}, 1);
    }
  }

  lemma HardTimeoutChanges(p: Pool, job: Job)
    requires Sound(p) && job in p.jobs.hard
    ensures Changed(p.config, p.crew, OnHardTimeout(p, job).crew, {p.jobs.hard[job]}, 0)
  {
    JobsFacts(p.jobs);
    var w := p.jobs.hard[job];
    BusyIsLive(p.config, p.crew, p.jobs.inflight.Keys, w);
    hide Inv, Progress, WaitersServed, Drain, Changed, Replaced, Settle, FreshAttempts;
    var jobs := p.jobs.(hard := p.jobs.hard - {job});
    var crew, left := Replaced(p.config, p.crew, w, 0), Settle(jobs.(inflight := jobs.inflight - {w}), job, Rejected);
    DrainChanges(p, crew, left, p.readyWaiters);
    LostAndReplaced(p.config, p.crew, w, 0);
    ChangedOn(p.config, p.crew, crew, OnHardTimeout(p, job).crew, {w}, 0);
  }

  /** A worker that leaves by itself is replaced at once, unless the budget for crashes is used up. */
  lemma LostWorkerIsReplaced(p: Pool, e: Event)
    requires Sound(p) && Enabled(p, e) && (e.WorkerGone? || e.HardTimeout? || e.ParseResult?)
    requires Leaving(p, e) * p.crew.workers != {}
    requires p.crew.crashCount + (if e.WorkerGone? then 1 else 0) < 100
    ensures Step(p, e).crew.attempts > p.crew.attempts
  {
    var w :| w in Leaving(p, e) && w in p.crew.workers;
    EventIs(p, e);
    LiveIsNotDestroyed(p, w);
    FewerLeft(p.crew.workers, w);
    hide *;
    match e
    case WorkerGone(_) => GoneReplaces(p, w);
    case ParseResult(_, id) => ResultReplaces(p, w, id);
    case HardTimeout(job) => HardTimeoutReplaces(p, job);
    case _ =>
  }

  lemma FewerLeft(workers: set<Worker>, w: Worker)
    requires w in workers
    ensures |workers - {w}| < |workers|
  {
  }

  lemma DrainAttempts(p: Pool)
    requires FreshAttempts(p.crew)
    ensures p.crew.attempts <= Drain(p).crew.attempts
  {
    DrainFacts(p);
  }

  /** An attempt to replace worker `w` can be made. */
  predicate Replaceable(p: Pool, w: Worker, crashes: nat) {
    !p.crew.destroyed && p.crew.crashCount + crashes < 100 && |p.crew.workers - {w}| < p.config.maxSize
  }

  lemma GoneReplaces(p: Pool, w: Worker)
    requires FreshAttempts(p.crew) && w in p.crew.workers && Replaceable(p, w, 1)
    ensures OnWorkerGone(p, w).crew.attempts > p.crew.attempts
  {
    LostAndReplaced(p.config, p.crew, w, 1);
    hide Drain, Replaced, Finish, FreshAttempts, Changed;
    DrainAttempts(SettleReadyWaiters(p.(crew := Replaced(p.config, p.crew, w, 1),
        jobs := Finish(p.jobs, w, Rejected))));
  }

  lemma ResultReplaces(p: Pool, w: Worker, id: Option<Job>)
    requires FreshAttempts(p.crew) && w in p.jobs.inflight && (id == None || id == Some(p.jobs.inflight[w]))
    requires CountOf(p.crew, w) >= p.config.recycleInterval && Replaceable(p, w, 0)
    ensures OnParseResult(p, w, id).crew.attempts > p.crew.attempts
  {
    LostAndReplaced(p.config, p.crew, w, 0);
    RecycleIsReplaced(p.config, p.crew, w);
    ResultDrains(p, w, id);
    assert Freed(p.config, p.crew, w) == Replaced(p.config, p.crew, w, 0);
    hide Drain, Freed, Replaced, Finish, FreshAttempts, Changed;
    DrainAttempts(p.(crew := Freed(p.config, p.crew, w), jobs := Finish(p.jobs, w, Resolved)));
  }

  lemma HardTimeoutReplaces(p: Pool, job: Job)
    requires FreshAttempts(p.crew) && job in p.jobs.hard && job !in p.jobs.settled
    requires p.jobs.hard[job] in p.crew.workers && Replaceable(p, p.jobs.hard[job], 0)
    ensures OnHardTimeout(p, job).crew.attempts > p.crew.attempts
  {
    var w, jobs := p.jobs.hard[job], p.jobs.(hard := p.jobs.hard - {job});
    LostAndReplaced(p.config, p.crew, w, 0);
    hide Drain, Replaced, Settle, FreshAttempts, Changed;
    DrainAttempts(p.(crew := Replaced(p.config, p.crew, w, 0),
        jobs := Settle(jobs.(inflight := jobs.inflight - {w}), job, Rejected)));
  }

  /** What is known of the worker or the job that an event is about. */
  lemma EventIs(p: Pool, e: Event)
    requires Sound(p) && Enabled(p, e)
    ensures FreshAttempts(p.crew)
    ensures e.WorkerGone? ==> Leaving(p, e) == {e.w} && Step(p, e) == OnWorkerGone(p, e.w)
    ensures e.ParseResult? ==> Step(p, e) == OnParseResult(p, e.w, e.id)
    ensures e.ParseResult? && Leaving(p, e) != {} ==>
        && Leaving(p, e) == {e.w} && e.w in p.jobs.inflight && (e.id == None || e.id == Some(p.jobs.inflight[e.w]))
        && CountOf(p.crew, e.w) >= p.config.recycleInterval
    ensures e.HardTimeout? ==>
        && e.job in p.jobs.hard && e.job !in p.jobs.settled && p.jobs.hard[e.job] in p.crew.workers
        && Leaving(p, e) == {p.jobs.hard[e.job]} && Step(p, e) == OnHardTimeout(p, e.job)
  {
    Fresh(p.config, p.crew, p.jobs.inflight.Keys);
    JobsFacts(p.jobs);
    CrewFacts(p.config, p.crew, p.jobs.inflight.Keys);
    hide Inv, Progress, WaitersServed, OnWorkerGone, OnParseResult, OnHardTimeout, FreshAttempts;
    match e
    case WorkerGone(w) =>
    case ParseResult(w, id) =>
    case HardTimeout(job) =>
    case _ =>
  }

  lemma LiveIsNotDestroyed(p: Pool, w: Worker)
    requires Sound(p) && w in p.crew.workers
    ensures !p.crew.destroyed && |p.crew.workers| <= p.config.maxSize
    ensures forall crashes: nat :: Replaceable(p, w, crashes) <==> p.crew.crashCount + crashes < 100
  {
    FewerLeft(p.crew.workers, w);
  }

  /** Prewarming fills the pool, unless the budget is used up or an attempt fails. */
  lemma PrewarmFills(p: Pool)
    requires Sound(p)
    ensures var r := Step(p, Prewarm).crew;
            |r.workers| == p.config.maxSize || !Healthy(r) ||
                (p.crew.attempts < r.attempts && !p.config.created(r.attempts - 1))
  {
    hide *;
    PrewarmIs(p);
    PrewarmedChange(p.config, p.crew);
  }

  lemma PrewarmIs(p: Pool)
    requires Sound(p)
    ensures FreshAttempts(p.crew) && Step(p, Prewarm) == p.(crew := Prewarmed(p.config, p.crew))
    ensures |Step(p, Prewarm).crew.workers| <= p.config.maxSize
  {
    Fresh(p.config, p.crew, p.jobs.inflight.Keys);
    StepKeeps(p, Prewarm);
    SizeIsBounded(Step(p, Prewarm));
    hide Sound, FreshAttempts, Prewarmed;
  }

  lemma SizeIsBounded(p: Pool)
    requires Sound(p)
    ensures |p.crew.workers| <= p.config.maxSize
  {
  }

  /** While jobs are queued, workers are started for them, two at a time at most, as far as they may be. */
  lemma QueueStartsWorkers(p: Pool)
    requires Sound(p)
    ensures var r := Step(p, Request);
            && |r.crew.pending| <= Larger(|p.crew.pending|, 2)
            && (r.jobs.queue != [] ==> Enough(p.config, r.crew, |r.jobs.queue|))
  {
    hide *;
    RequestIs(p);
    EmptyWhenDestroyed(p);
    AtLeast(|p.crew.pending|, 2);
    if !p.crew.destroyed {
      var q := p.(jobs := p.jobs.(queue := p.jobs.queue + [p.jobs.nextId], nextId := p.jobs.nextId + 1));
      DrainFacts(q);
      DrainedChanges(q, Drain(q));
    }
  }

  lemma RequestIs(p: Pool)
    requires Sound(p)
    ensures FreshAttempts(p.crew)
    ensures Step(p, Request).jobs.queue != [] ==> Step(p, Request).crew.idle == []
    ensures p.crew.destroyed ==> Step(p, Request) == p
    ensures !p.crew.destroyed ==>
        Step(p, Request) ==
            Drain(p.(jobs := p.jobs.(queue := p.jobs.queue + [p.jobs.nextId], nextId := p.jobs.nextId + 1)))
  {
    hide *;
    Known(p);
    RequestUnfolds(p);
    RequestKeeps(p);
    SoundProgresses(OnRequest(p));
  }

  lemma RequestUnfolds(p: Pool)
    requires FreshAttempts(p.crew)
    ensures Step(p, Request) == OnRequest(p)
    ensures p.crew.destroyed ==> OnRequest(p) == p
    ensures !p.crew.destroyed ==>
        OnRequest(p) == Drain(p.(jobs := p.jobs.(queue := p.jobs.queue + [p.jobs.nextId], nextId := p.jobs.nextId + 1)))
  {
    hide Drain;
  }

  lemma SoundProgresses(p: Pool)
    requires Sound(p)
    ensures p.jobs.queue != [] ==> p.crew.idle == []
  {
  }

  lemma EmptyWhenDestroyed(p: Pool)
    requires Sound(p)
    ensures p.crew.destroyed ==> p.jobs.queue == []
  {
  }

  lemma AtLeast(a: nat, b: nat)
    ensures a <= Larger(a, b)
  {
  }

  lemma DrainTells(p: Pool)
    requires FreshAttempts(p.crew)
    ensures Drain(p).readyWaiters == p.readyWaiters
  {
    DrainFacts(p);
  }

  lemma PendingIsLeft(config: Config, c: Crew, w: Worker, crashes: nat)
    ensures c.pending - {w} <= Replaced(config, c, w, crashes).pending
  {
  }

  /** Those who wait for readiness are told once no worker that was starting is left, and not before. */
  lemma ReadinessIsTold(p: Pool, e: Event)
    requires Sound(p) && Enabled(p, e)
    ensures var r := Step(p, e);
            && (r.readyWaiters < p.readyWaiters ==>
                r.readyWaiters == 0 && (e.Destroy? ||
                    ((e.GrammarsLoaded? || e.WorkerGone?) && p.crew.pending <= {e.w})))
            && (r.readyWaiters > p.readyWaiters <==> e.WaitUntilReady? && !p.crew.destroyed && p.crew.pending != {})
            && r.readyWaiters <= p.readyWaiters + 1
  {
    Fresh(p.config, p.crew, p.jobs.inflight.Keys);
    hide Sound, OnRequest, OnGrammarsLoaded, OnParseResult, OnWorkerGone, OnTimeout, OnHardTimeout, Prewarmed,
         RecycleEach, FreshAttempts;
    match e
    case Request => RequestTells(p);
    case GrammarsLoaded(w) => LoadedTells(p, w);
    case WorkerGone(w) => GoneTells(p, w);
    case ParseResult(w, id) => ResultTells(p, w, id);
    case Timeout(job) => TimeoutTells(p, job);
    case HardTimeout(job) => HardTimeoutTells(p, job);
    case _ =>
  }

  lemma RequestTells(p: Pool)
    requires FreshAttempts(p.crew)
    ensures OnRequest(p).readyWaiters == p.readyWaiters
  {
    hide Drain, FreshAttempts;
    DrainTells(p.(jobs := p.jobs.(queue := p.jobs.queue + [p.jobs.nextId], nextId := p.jobs.nextId + 1)));
  }

  lemma LoadedTells(p: Pool, w: Worker)
    requires FreshAttempts(p.crew)
    ensures var r := OnGrammarsLoaded(p, w).readyWaiters;
        r == p.readyWaiters || (r == 0 && p.crew.pending <= {w})
  {
    var crew := p.crew.(pending := p.crew.pending - {w}, idle := p.crew.idle + [w]);
    SameAttempts(p.crew, crew);
    hide Drain, FreshAttempts;
    DrainTells(SettleReadyWaiters(p.(crew := crew)));
  }

  lemma GoneTells(p: Pool, w: Worker)
    requires FreshAttempts(p.crew)
    ensures var r := OnWorkerGone(p, w).readyWaiters; r == p.readyWaiters || (r == 0 && p.crew.pending <= {w})
  {
    PendingIsLeft(p.config, p.crew, w, 1);
    hide Drain, FreshAttempts, Replaced, Finish;
    DrainTells(SettleReadyWaiters(p.(crew := Replaced(p.config, p.crew, w, 1), jobs := Finish(p.jobs, w, Rejected))));
  }

  lemma ResultTells(p: Pool, w: Worker, id: Option<Job>)
    requires FreshAttempts(p.crew)
    ensures OnParseResult(p, w, id).readyWaiters == p.readyWaiters
  {
    hide Drain, FreshAttempts, Freed, Finish;
    DrainTells(p.(crew := Freed(p.config, p.crew, w), jobs := Finish(p.jobs, w, Resolved)));
  }

  lemma TimeoutTells(p: Pool, job: Job)
    requires job in p.jobs.soft
    ensures OnTimeout(p, job).readyWaiters == p.readyWaiters
  {
  }

  lemma HardTimeoutTells(p: Pool, job: Job)
    requires FreshAttempts(p.crew) && job in p.jobs.hard
    ensures OnHardTimeout(p, job).readyWaiters == p.readyWaiters
  {
    hide Drain, FreshAttempts, Replaced, Settle;
    var w, jobs := p.jobs.hard[job], p.jobs.(hard := p.jobs.hard - {job});
    DrainTells(p.(crew := Replaced(p.config, p.crew, w, 0),
        jobs := Settle(jobs.(inflight := jobs.inflight - {w}), job, Rejected)));
  }
}
