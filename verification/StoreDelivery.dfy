/**
 What the store protocol delivers when nothing goes wrong: while the worker answers, the
 database does what it is asked and nobody closes the writer, every bundle is stored and every
 drain resolves.
 */
module StoreDelivery {
  import opened StoreProtocol

  /** Nothing goes wrong: requests succeed, and neither an error nor an end comes. */
  predicate Undisturbed(e: Event) {
    (e.Handle? ==> e.succeeds) && !e.Shut? && !e.WorkerError? && !e.Stop? && !e.Exit?
  }

  /** Nothing has gone wrong so far, and the worker is connected or about to open the database. */
  ghost predicate Calm(s: System) {
    && !s.writer.failed && !s.writer.exited && s.worker.running
    && NoFailure(s.replies) && AllTrue(s.results) && Close !in s.requests
    && (s.worker.connected || (s.requests != [] && s.requests[0] == Open))
    && forall id :: id in s.writer.drains ==> s.writer.drains[id]
  }

  lemma StepStaysCalm(s: System, e: Event)
    requires Calm(s) && Enabled(s, e) && Undisturbed(e)
    ensures Calm(Step(s, e))
  {
    match e
    case Send(bundle) =>
    case Drain =>
    case Handle(_) =>
      assert s.requests == [s.requests[0]] + s.requests[1..];
      HandledCalmly(s);
    case Deliver => DeliveredCalmly(s);
    case _ =>
  }

  lemma HandledCalmly(s: System)
    requires Calm(s) && s.requests != []
    ensures Calm(OnHandle(s, true))
  {
    var r := OnHandle(s, true);
    assert s.requests[0] in s.requests;
    assert r.replies == s.replies + [r.replies[|s.replies|]];
    assert forall k :: 0 <= k < |r.replies| ==> !r.replies[k].Failed?;
    assert forall k :: 0 <= k < |r.results| ==> r.results[k];
    assert forall q :: q in s.requests[1..] ==> q in s.requests;
  }

  lemma DeliveredCalmly(s: System)
    requires Calm(s) && s.replies != []
    ensures Calm(Step(s, Deliver))
  {
    assert !s.replies[0].Failed?;
    hide StillWaiting;
  }

  lemma InitialIsCalm()
    ensures Calm(Initial())
  {
  }

  // ---------------------------------------------------------------- what was asked for

  /** The bundles that the main thread sends. */
  function Asked(events: seq<Event>): seq<Bundle> {
    if events == [] then []
    else
      var last := events[|events| - 1];
      Asked(events[..|events| - 1]) + (if last.Send? then [last.bundle] else [])
  }

  /** The number of drains it asks for. */
  function DrainsAsked(events: seq<Event>): nat {
    if events == [] then 0
    else DrainsAsked(events[..|events| - 1]) + (if events[|events| - 1].Drain? then 1 else 0)
  }

  lemma StepTakesWhatIsAsked(s: System, e: Event)
    requires Calm(s) && Enabled(s, e)
    ensures Step(s, e).sent == s.sent + (if e.Send? then [e.bundle] else [])
    ensures Step(s, e).writer.nextDrainId == s.writer.nextDrainId + (if e.Drain? then 1 else 0)
  {
    assert s.sent + [] == s.sent;
    hide StillWaiting, NoFailure, AllTrue;
  }

  /** At rest, everything sent is stored and every drain has resolved. */
  lemma CalmRest(s: System)
    requires Inv(s) && Calm(s) && AtRest(s)
    ensures s.worker.stored == s.sent
    ensures forall id: nat :: id < s.writer.nextDrainId ==> id in s.writer.drains && s.writer.drains[id]
  {
    RestLeavesNoWaiter(s);
    assert s.requests == [] && Bundles(s.requests) == [];
    assert s.results[..|s.results|] == s.results && s.sent[|s.results|..] == [];
    ChosenPrefix(s.sent, s.results, |s.results|);
    hide Honest, Behind, Truthful, Kept, Counted, Served;
  }

  /**
   Over every run in which nothing goes wrong the writer takes all it is given and never
   fails, and whenever the system is at rest exactly the bundles sent are stored, in that
   order, and every drain has resolved.
   */
  lemma {:induction false} EverythingIsStored(states: seq<System>, events: seq<Event>, j: nat)
    requires Run(states, events) && j < |states| && forall i :: 0 <= i < |events| ==> Undisturbed(events[i])
    ensures !states[j].writer.failed && states[j].sent == Asked(events[..j])
    ensures states[j].writer.nextDrainId == DrainsAsked(events[..j])
    ensures AtRest(states[j]) ==> states[j].worker.stored == Asked(events[..j])
    ensures AtRest(states[j]) ==>
        forall id: nat :: id < DrainsAsked(events[..j]) ==>
          id in states[j].writer.drains && states[j].writer.drains[id]
  {
    RunIsCalm(states, events, j);
    RunKeeps(states, events, j);
    hide *;
    if AtRest(states[j]) { CalmRest(states[j]); }
    CalmIsUnfailed(states[j]);
  }

  lemma CalmIsUnfailed(s: System)
    requires Calm(s)
    ensures !s.writer.failed
  {
  }

  lemma {:induction false} RunIsCalm(states: seq<System>, events: seq<Event>, j: nat)
    requires Run(states, events) && j < |states| && forall i :: 0 <= i < |events| ==> Undisturbed(events[i])
    ensures Calm(states[j]) && states[j].sent == Asked(events[..j])
    ensures states[j].writer.nextDrainId == DrainsAsked(events[..j])
  {
    hide Calm, Undisturbed, Step, Enabled;
    if j == 0 {
      InitialIsCalm();
    } else {
      RunIsCalm(states, events, j - 1);
      assert Happens(states[j - 1], events[j - 1], states[j]);
      StepStaysCalm(states[j - 1], events[j - 1]);
      StepTakesWhatIsAsked(states[j - 1], events[j - 1]);
      assert events[..j][..j - 1] == events[..j - 1];
    }
  }

  /** It comes to rest: each step that needs no call, an end apart, uses up what is left to do. */
  lemma {:induction false} CalmComesToRest(s: System) returns (events: seq<Event>, r: System)
    requires Inv(s) && Calm(s)
    ensures Inv(r) && Calm(r) && AtRest(r) && r.sent == s.sent && r.writer.nextDrainId == s.writer.nextDrainId
    ensures Leads(s, events, r) && forall e :: e in events ==> e == Handle(true) || e == Deliver
    decreases Remaining(s)
  {
    if s.replies != [] || s.requests != [] {
      var e := if s.replies != [] then Deliver else Handle(true);
      SpontaneousStepsEnd(s, e);
      StepKeeps(s, e);
      StepStaysCalm(s, e);
      StepTakesWhatIsAsked(s, e);
      hide Inv, Calm, Step;
      var more;
      more, r := CalmComesToRest(Step(s, e));
      events := [e] + more;
      assert events[1..] == more;
    } else {
      events, r := [], s;
    }
  }

  /** The events, one after the other, lead from one state to the other. */
  ghost predicate Leads(s: System, events: seq<Event>, r: System)
    decreases |events|
  {
    if events == [] then r == s else Enabled(s, events[0]) && Leads(Step(s, events[0]), events[1..], r)
  }

  // ---------------------------------------------------------------- readiness and failure

  /** Who is told that the worker is ready has an open database to write to. */
  ghost predicate Told(s: System) {
    Ready in s.replies || s.writer.ready == Fulfilled ==> s.worker.connected
  }

  lemma StepTells(s: System, e: Event)
    requires Told(s) && Enabled(s, e)
    ensures Told(Step(s, e))
  {
    hide StillWaiting;
    match e
    case Deliver => assert s.replies == [s.replies[0]] + s.replies[1..];
    case _ =>
  }

  lemma {:induction false} ReadyMeansConnected(states: seq<System>, events: seq<Event>, j: nat)
    requires Run(states, events) && j < |states|
    ensures Told(states[j])
  {
    if j > 0 {
      ReadyMeansConnected(states, events, j - 1);
      hide Told, Step, Enabled;
      assert Happens(states[j - 1], events[j - 1], states[j]);
      StepTells(states[j - 1], events[j - 1]);
    }
  }

  /**
   The promise is settled once: fulfilled by the message that the worker is ready, broken by an
   error or a bad exit.
   */
  lemma ReadyIsSettledOnce(s: System, e: Event)
    requires Enabled(s, e)
    ensures var before, after := s.writer.ready, Step(s, e).writer.ready;
            && (before != Pending ==> after == before)
            && (before == Pending ==>
                && (after == Fulfilled <==> e.Deliver? && s.replies[0] == Ready)
                && (after == Broken <==> e.WorkerError? || (e.Exit? && e.code != 0)))
  {
    hide StillWaiting;
  }

  /**
   The writer fails only when it is told of a failure, when the worker breaks down, or when the
   worker ends while somebody waits. From then on it stays failed and takes nothing.
   */
  lemma FailureIsFinal(s: System, e: Event)
    requires Enabled(s, e)
    ensures var r := Step(s, e);
            && (s.writer.failed || s.writer.exited ==>
                (s.writer.failed ==> r.writer.failed) && r.sent == s.sent && r.marks == s.marks)
            && (r.writer.failed && !s.writer.failed <==>
                !s.writer.failed &&
                    (|| (e.Deliver? && s.replies[0].Failed?) || e.WorkerError?
                     || (e.Exit? && (e.code != 0 || s.writer.drainWaiters != {} || s.writer.belowWaiters != []))))
  {
    hide StillWaiting;
  }
}
