/**
 The parse worker pool as the class it is: fields changed in place by its handlers.
 Every method is tied to the step of `ParsePool` that says what it does to the state,
 so what is proved there about runs holds of the object.
 */
module WorkerPool {
  import opened Options
  import P = ParsePool

  const MAX_POOL_SIZE := 16

  /** What a worker may post. */
  datatype Message = GrammarsLoaded | ParseResult(id: Option<P.Job>) | Other

  /** How a call that returns a promise leaves it. */
  datatype Reply = RejectedAtOnce | ResolvedAtOnce | Waiting

  lemma SpawnStep(config: P.Config, c: P.Crew, queued: nat)
    requires P.FreshAttempts(c)
    ensures P.WantsWorker(config, c, queued) ==>
              && P.SpawnWanted(config, c, queued) == P.SpawnWanted(config, P.SpawnOne(config, c), queued)
              && P.SpawnMeasure(config, P.SpawnOne(config, c)) < P.SpawnMeasure(config, c)
    ensures !P.WantsWorker(config, c, queued) ==> P.SpawnWanted(config, c, queued) == c
  {
  }

  lemma UnhealthySpawnsNone(config: P.Config, c: P.Crew)
    ensures !P.Healthy(c) ==> P.SpawnOne(config, c) == c
  {
  }

  lemma PrewarmStep(config: P.Config, c: P.Crew)
    requires P.FreshAttempts(c)
    ensures |c.workers| >= config.maxSize ==> P.Prewarmed(config, c) == c
    ensures |c.workers| < config.maxSize ==>
        var r := P.SpawnOne(config, c);
        && |c.workers| <= |r.workers|
        && P.Prewarmed(config, c) == if |r.workers| == |c.workers| then r else P.Prewarmed(config, r)
  {
  }

  lemma DispatchStep(p: P.Pool)
    ensures var q := p.(jobs := p.jobs.(queue := P.DropSettled(p.jobs.queue, p.jobs.settled)));
            && (p.crew.idle == [] || p.jobs.queue == [] ==> P.DispatchQueued(p) == p)
            && (p.crew.idle != [] && p.jobs.queue != [] && q.jobs.queue == [] ==> P.DispatchQueued(p) == q)
            && (p.crew.idle != [] && p.jobs.queue != [] && q.jobs.queue != [] ==>
                  P.DispatchQueued(p) == P.DispatchQueued(P.TakeOne(q)))
  {
  }

  /** The jobs once those in `open` are rejected. */
  ghost function Rejecting(jobs: P.Jobs, open: set<P.Job>): (r: P.Jobs)
    ensures r.inflight == jobs.inflight && r.queue == jobs.queue
  {
    jobs.(settled := jobs.settled + (map job | job in open :: P.Rejected), soft := jobs.soft - open,
        hard := jobs.hard - open)
  }

  lemma RejectNone(jobs: P.Jobs)
    ensures Rejecting(jobs, {}) == jobs
  {
    var none: set<P.Job> := {};
    assert jobs.settled + (map job | job in none :: P.Rejected) == jobs.settled;
  }

  lemma RejectedIsClosed(jobs: P.Jobs)
    ensures P.Closed(jobs) == Rejecting(jobs, P.Open(jobs)).(inflight := map[], queue := [])
  {
  }

  lemma RejectStep(jobs: P.Jobs, open: set<P.Job>, job: P.Job)
    requires open !! jobs.settled.Keys
    ensures P.Settle(Rejecting(jobs, open), job, P.Rejected) ==
        Rejecting(jobs, if job in jobs.settled then open else open + {job})
  {
    var r := Rejecting(jobs, open);
    if job !in r.settled {
      assert r.settled[job := P.Rejected] == jobs.settled + (map j | j in open + {job} :: P.Rejected);
      assert r.soft - {job} == jobs.soft - (open + {job});
      assert r.hard - {job} == jobs.hard - (open + {job});
    } else if job !in jobs.settled {
      assert open + {job} == open;
    }
  }

  class ParseWorkerPool {
    const config: P.Config
    var idle: seq<P.Worker>
    var queue: seq<P.Job>
    var inflight: map<P.Worker, P.Job>
    var workers: set<P.Worker>
    var pending: set<P.Worker>
    var parseCounts: map<P.Worker, nat>
    var nextId: nat
    var crashCount: nat
    var destroyed: bool
    var readyWaiters: nat

    // What the object's collaborators hold: attempts to create a worker, settled
    // promises, armed timers, and the jobs posted to workers.
    var attempts: nat
    var settled: map<P.Job, P.Verdict>
    var soft: map<P.Job, P.Worker>
    var hard: map<P.Job, P.Worker>
    var dispatched: seq<P.Job>

    ghost function Crew(): P.Crew
      reads this
    {
      P.Crew(idle, workers, pending, parseCounts, crashCount, destroyed, attempts)
    }

    ghost function Jobs(): P.Jobs
      reads this
    {
      P.Jobs(queue, inflight, nextId, settled, soft, hard, dispatched)
    }

    ghost function State(): P.Pool
      reads this
    {
      P.Pool(config, Crew(), Jobs(), readyWaiters)
    }

    constructor (size: int, recycleInterval: nat, created: nat -> bool)
      ensures 1 <= config.maxSize <= MAX_POOL_SIZE && (1 <= size <= MAX_POOL_SIZE ==> config.maxSize == size)
      ensures config.recycleInterval == recycleInterval && config.created == created
      ensures State() == P.Started(config) && P.Sound(State())
    {
      var bounded := if size < MAX_POOL_SIZE then size else MAX_POOL_SIZE;
      config := P.Config(if bounded < 1 then 1 else bounded, recycleInterval, created);
      idle, queue, inflight, workers, pending, parseCounts := [], [], map[], {}, {}, map[];
      nextId, crashCount, destroyed, readyWaiters := 1, 0, false, 0;
      attempts, settled, soft, hard, dispatched := 0, map[], map[], map[], [];
      new;
      SpawnOne();
      P.StartedIsSound(config);
    }

    predicate Healthy()
      reads this
    {
      !destroyed && crashCount < P.CRASH_BUDGET
    }

    method SpawnOne()
      modifies this
      ensures Crew() == P.SpawnOne(config, old(Crew())) && Jobs() == old(Jobs()) && readyWaiters == old(readyWaiters)
    {
      if destroyed || !Healthy() || |workers| >= config.maxSize {
        return;
      }
      var worker := attempts;
      attempts := attempts + 1;
      if !config.created(worker) {
        crashCount := crashCount + 1;
        return;
      }
      workers := workers + {worker};
      pending := pending + {worker};
      parseCounts := parseCounts[worker := 0];
    }

    method RemoveWorker(worker: P.Worker)
      modifies this
      ensures Crew() == P.RemoveWorker(old(Crew()), worker) && Jobs() == old(Jobs()) &&
          readyWaiters == old(readyWaiters)
    {
      workers := workers - {worker};
      pending := pending - {worker};
      parseCounts := parseCounts - {worker};
      idle := P.Without(idle, worker);
    }

    method Recycle(worker: P.Worker)
      modifies this
      ensures Crew() == P.Recycle(config, old(Crew()), worker) && Jobs() == old(Jobs()) &&
          readyWaiters == old(readyWaiters)
    {
      RemoveWorker(worker);
      if Healthy() {
        SpawnOne();
      }
    }

    method Settle(job: P.Job, verdict: P.Verdict)
      modifies this
      ensures Jobs() == P.Settle(old(Jobs()), job, verdict) && Crew() == old(Crew()) &&
          readyWaiters == old(readyWaiters)
    {
      if job in settled {
        return;
      }
      settled := settled[job := verdict];
      soft := soft - {job};
      hard := hard - {job};
    }

    method SettleReadyWaiters()
      modifies this
      ensures State() == P.SettleReadyWaiters(old(State()))
    {
      if |pending| > 0 {
        return;
      }
      readyWaiters := 0;
    }

    method Dispatch(worker: P.Worker, job: P.Job)
      modifies this
      ensures Crew() == old(Crew()).(parseCounts := old(parseCounts)[worker := P.CountOf(old(Crew()), worker) + 1])
      ensures Jobs() == old(Jobs()).(inflight := old(inflight)[worker := job], soft := old(soft)[job := worker],
          dispatched := old(dispatched) + [job])
      ensures readyWaiters == old(readyWaiters)
    {
      inflight := inflight[worker := job];
      parseCounts := parseCounts[worker := (if worker in parseCounts then parseCounts[worker] else 0) + 1];
      soft := soft[job := worker];
      dispatched := dispatched + [job];
    }

    /** Starts workers while jobs outnumber the workers that are idle or starting. */
    method SpawnForQueue()
      requires P.FreshAttempts(Crew())
      modifies this
      ensures Crew() == P.SpawnWanted(config, old(Crew()), |old(queue)|) && Jobs() == old(Jobs()) &&
          readyWaiters == old(readyWaiters)
    {
      hide P.SpawnWanted, P.SpawnOne, P.SpawnMeasure;
      while |queue| > |idle| + |pending| && |workers| < config.maxSize && |pending| < P.MAX_CONCURRENT_SPAWN &&
          Healthy()
        invariant P.FreshAttempts(Crew()) && Jobs() == old(Jobs()) && readyWaiters == old(readyWaiters)
        invariant P.SpawnWanted(config, Crew(), |queue|) == P.SpawnWanted(config, old(Crew()), |old(queue)|)
        decreases P.SpawnMeasure(config, Crew())
      {
        SpawnStep(config, Crew(), |queue|);
        SpawnOne();
      }
      SpawnStep(config, Crew(), |queue|);
    }

    method DropSettled()
      modifies this`queue
      ensures queue == P.DropSettled(old(queue), settled)
    {
      while queue != [] && queue[0] in settled
        invariant P.DropSettled(queue, settled) == P.DropSettled(old(queue), settled)
        decreases |queue|
      {
        queue := queue[1..];
      }
    }

    /** Hands queued jobs to idle workers, skipping jobs that are settled already. */
    method DispatchQueue()
      modifies this
      ensures State() == P.DispatchQueued(old(State()))
    {
      hide P.DispatchQueued;
      while |idle| > 0 && |queue| > 0
        invariant P.DispatchQueued(State()) == P.DispatchQueued(old(State()))
        decreases |queue|
      {
        DispatchStep(State());
        DropSettled();
        if queue == [] {
          return;
        }
        label Taken:
        var job, worker := queue[0], idle[|idle| - 1];
        queue := queue[1..];
        idle := idle[..|idle| - 1];
        Dispatch(worker, job);
        assert State() == P.TakeOne(old@Taken(State()));
      }
      DispatchStep(State());
    }

    method GiveUp()
      modifies this
      ensures State() == P.GiveUp(old(State()))
    {
      if |queue| > 0 && |idle| == 0 && |pending| == 0 && |workers| == 0 {
        var jobs := queue;
        queue := [];
        var i := 0;
        assert jobs[0..] == jobs;
        while i < |jobs|
          invariant 0 <= i <= |jobs| && Crew() == old(Crew()) && readyWaiters == old(readyWaiters)
          invariant P.SettleEach(Jobs(), jobs[i..], P.Rejected) ==
              P.SettleEach(old(Jobs()).(queue := []), jobs, P.Rejected)
        {
          assert jobs[i..][1..] == jobs[i + 1..];
          Settle(jobs[i], P.Rejected);
          i := i + 1;
        }
      }
    }

    method Drain()
      requires P.FreshAttempts(Crew())
      modifies this
      ensures State() == P.Drain(old(State()))
    {
      hide P.SpawnWanted, P.DispatchQueued, P.GiveUp;
      SpawnForQueue();
      DispatchQueue();
      GiveUp();
    }

    method OnMessage(worker: P.Worker, message: Message)
      requires P.FreshAttempts(Crew())
      modifies this
      ensures State() ==
          match message
          case GrammarsLoaded => P.OnGrammarsLoaded(old(State()), worker)
          case ParseResult(id) => P.OnParseResult(old(State()), worker, id)
          case Other => old(State())
    {
      hide P.Drain, P.Recycle, P.SpawnOne, P.RemoveWorker;
      if message == GrammarsLoaded {
        if worker !in workers {
          return;
        }
        pending := pending - {worker};
        idle := idle + [worker];
        SettleReadyWaiters();
        Drain();
        return;
      }
      if !message.ParseResult? {
        return;
      }
      if worker !in inflight || (message.id.Some? && message.id.value != inflight[worker]) {
        return;
      }
      var job := inflight[worker];
      inflight := inflight - {worker};
      if (if worker in parseCounts then parseCounts[worker] else 0) >= config.recycleInterval {
        Recycle(worker);
      } else {
        idle := idle + [worker];
      }
      assert Crew() == P.Freed(config, old(Crew()), worker);
      Settle(job, P.Resolved);
      Drain();
    }

    /** A worker is gone; its job is rejected and, while healthy, a new worker starts. */
    method OnWorkerGone(worker: P.Worker)
      requires P.FreshAttempts(Crew())
      modifies this
      ensures State() == P.OnWorkerGone(old(State()), worker)
    {
      hide P.Drain, P.SpawnOne, P.Without, P.Settle;
      if worker !in workers {
        return;
      }
      var lost := if worker in inflight then Some(inflight[worker]) else None;
      inflight := inflight - {worker};
      RemoveWorker(worker);
      crashCount := crashCount + 1;
      if lost.Some? {
        Settle(lost.value, P.Rejected);
      }
      UnhealthySpawnsNone(config, Crew());
      if Healthy() {
        SpawnOne();
      }
      assert Crew() == P.Replaced(config, old(Crew()), worker, 1);
      hide P.SpawnOne, P.RemoveWorker, P.Replaced;
      SettleReadyWaiters();
      Drain();
    }

    method OnTimeout(job: P.Job)
      requires job in soft
      modifies this
      ensures State() == P.OnTimeout(old(State()), job)
    {
      var worker := soft[job];
      soft := soft - {job};
      if job in settled || worker !in workers {
        return;
      }
      hard := hard[job := worker];
    }

    method OnHardTimeout(job: P.Job)
      requires P.FreshAttempts(Crew()) && job in hard
      modifies this
      ensures State() == P.OnHardTimeout(old(State()), job)
    {
      hide P.Drain;
      var worker := hard[job];
      hard := hard - {job};
      if job in settled || worker !in workers {
        return;
      }
      RemoveWorker(worker);
      inflight := inflight - {worker};
      Settle(job, P.Rejected);
      UnhealthySpawnsNone(config, Crew());
      if Healthy() {
        SpawnOne();
      }
      assert Crew() == P.Replaced(config, old(Crew()), worker, 0);
      hide P.SpawnOne, P.RemoveWorker, P.Replaced;
      Drain();
    }

    method RequestParse() returns (reply: Reply)
      requires P.FreshAttempts(Crew())
      modifies this
      ensures State() == P.OnRequest(old(State()))
      ensures reply == if old(destroyed) then RejectedAtOnce else Waiting
    {
      hide P.Drain;
      if destroyed {
        return RejectedAtOnce;
      }
      queue := queue + [nextId];
      nextId := nextId + 1;
      Drain();
      return Waiting;
    }

    method WaitUntilReady() returns (reply: Reply)
      modifies this
      ensures State() == P.OnWaitUntilReady(old(State()))
      ensures reply == if destroyed then RejectedAtOnce else if pending == {} then ResolvedAtOnce else Waiting
    {
      if destroyed {
        return RejectedAtOnce;
      }
      if |pending| == 0 {
        return ResolvedAtOnce;
      }
      readyWaiters := readyWaiters + 1;
      return Waiting;
    }

    method Prewarm()
      requires P.FreshAttempts(Crew())
      modifies this
      ensures Crew() == P.Prewarmed(config, old(Crew())) && Jobs() == old(Jobs()) && readyWaiters == old(readyWaiters)
    {
      hide P.Prewarmed, P.SpawnOne;
      while |workers| < config.maxSize
        invariant P.FreshAttempts(Crew()) && Jobs() == old(Jobs()) && readyWaiters == old(readyWaiters)
        invariant P.Prewarmed(config, Crew()) == P.Prewarmed(config, old(Crew()))
        decreases config.maxSize - |workers|
      {
        PrewarmStep(config, Crew());
        var before := |workers|;
        SpawnOne();
        if |workers| == before {
          return;
        }
      }
      PrewarmStep(config, Crew());
    }

    method RecycleAll()
      modifies this
      ensures Crew() == P.RecycleEach(config, old(Crew()), old(idle)) && Jobs() == old(Jobs()) &&
          readyWaiters == old(readyWaiters)
    {
      hide P.Recycle;
      var each := idle;
      var i := 0;
      assert each[0..] == each;
      while i < |each|
        invariant 0 <= i <= |each| && Jobs() == old(Jobs()) && readyWaiters == old(readyWaiters)
        invariant P.RecycleEach(config, Crew(), each[i..]) == P.RecycleEach(config, old(Crew()), each)
      {
        assert each[i..][1..] == each[i + 1..];
        Recycle(each[i]);
        i := i + 1;
      }
    }

    /** Rejects the jobs in flight, in any order, and then those in the queue. */
    method RejectAll()
      modifies this
      ensures Crew() == old(Crew()) && readyWaiters == old(readyWaiters)
      ensures Jobs() == Rejecting(old(Jobs()), P.Open(old(Jobs())))
    {
      ghost var was := Jobs();
      ghost var open := RejectInflight();
      hide Rejecting, P.Settle;
      var i := 0;
      while i < |queue|
        invariant 0 <= i <= |queue| && Crew() == old(Crew()) && readyWaiters == old(readyWaiters)
        invariant Jobs() == Rejecting(was, open)
        invariant forall job :: job in open <==>
            job !in was.settled && (job in was.inflight.Values || job in queue[..i])
      {
        assert queue[..i + 1] == queue[..i] + [queue[i]];
        RejectStep(was, open, queue[i]);
        open := if queue[i] in was.settled then open else open + {queue[i]};
        Settle(queue[i], P.Rejected);
        i := i + 1;
      }
      assert queue[..i] == queue;
      assert open == P.Open(was);
    }

    method RejectInflight() returns (ghost open: set<P.Job>)
      modifies this
      ensures Crew() == old(Crew()) && readyWaiters == old(readyWaiters) && Jobs() == Rejecting(old(Jobs()), open)
      ensures forall job :: job in open <==> job in old(inflight).Values && job !in old(settled)
    {
      open := {};
      ghost var was := Jobs();
      assert Jobs() == Rejecting(was, open) by { RejectNone(was); }
      hide Rejecting, P.Settle;
      var busy := inflight.Keys;
      while busy != {}
        invariant busy <= inflight.Keys && Crew() == old(Crew()) && readyWaiters == old(readyWaiters)
        invariant Jobs() == Rejecting(was, open)
        invariant forall job :: job in open <==>
            job !in was.settled && exists w :: w in was.inflight && w !in busy && was.inflight[w] == job
        decreases |busy|
      {
        var worker :| worker in busy;
        busy := busy - {worker};
        RejectStep(was, open, inflight[worker]);
        open := if inflight[worker] in was.settled then open else open + {inflight[worker]};
        Settle(inflight[worker], P.Rejected);
      }
    }

    method CloseJobs()
      modifies this
      ensures Crew() == old(Crew()) && readyWaiters == old(readyWaiters) && Jobs() == P.Closed(old(Jobs()))
    {
      hide P.Open, P.Closed, Rejecting;
      RejectedIsClosed(Jobs());
      RejectAll();
      inflight := map[];
      queue := [];
    }

    /** Lets all workers go and rejects the callers that wait for readiness. */
    method Dismiss()
      modifies `destroyed, `readyWaiters, `workers, `pending, `parseCounts, `idle
      ensures destroyed && readyWaiters == 0 && workers == {} && pending == {} && parseCounts == map[] && idle == []
    {
      destroyed := true;
      readyWaiters := 0;
      workers := {};
      pending := {};
      parseCounts := map[];
      idle := [];
    }

    method Destroy()
      modifies this
      ensures State() == P.OnDestroy(old(State()))
    {
      if destroyed {
        return;
      }
      hide P.Closed;
      Dismiss();
      CloseJobs();
    }
  }
}
