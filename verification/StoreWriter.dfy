/**
 The two ends of the store protocol as the objects they are, and the admission of a
 batch of parse results. Every handler is tied to the step of `StoreProtocol` it makes.
 */
module StoreObjects {
  import S = StoreProtocol
  import D = StoreDelivery

  /** How a call that returns a promise leaves it. */
  datatype Reply = Resolved | Rejected | Waiting

  class StoreWriter {
    var firstError: bool
    var drainWaiters: set<nat>
    var belowWaiters: seq<nat>
    var nextDrainId: nat
    var outstanding: nat
    var exited: bool
    var readyPromise: S.Promise

    // The promises settled so far and the requests posted to the worker.
    var drains: map<nat, bool>
    var posted: seq<S.Request>

    ghost function Writer(): S.Writer
      reads this
    {
      S.Writer(firstError, exited, outstanding, nextDrainId, drainWaiters, belowWaiters, readyPromise, drains)
    }

    constructor ()
      ensures Writer() == S.Initial().writer && posted == S.Initial().requests
    {
      firstError, drainWaiters, belowWaiters, nextDrainId, outstanding, exited := false, {}, [], 0, 0, false;
      readyPromise, drains := S.Pending, map[];
      posted := [S.Open];
    }

    /** Refuses the bundle after an error or the worker's exit. */
    method SendBundle(bundle: S.Bundle) returns (accepted: bool)
      modifies this
      ensures accepted == S.Accepts(old(Writer()))
      ensures Writer() == if accepted then old(Writer()).(outstanding := old(outstanding) + 1) else old(Writer())
      ensures posted == if accepted then old(posted) + [S.Store(bundle)] else old(posted)
    {
      if firstError || exited {
        return false;
      }
      outstanding := outstanding + 1;
      posted := posted + [S.Store(bundle)];
      return true;
    }

    method WaitBelow(limit: nat) returns (reply: Reply)
      modifies this
      ensures Writer() == S.Waits(old(Writer()), limit) && posted == old(posted)
      ensures reply == if Writer() == old(Writer()) then Resolved else Waiting
    {
      if firstError || exited || outstanding < limit {
        return Resolved;
      }
      belowWaiters := belowWaiters + [limit];
      assert |belowWaiters| == |old(belowWaiters)| + 1;
      return Waiting;
    }

    method Drain() returns (reply: Reply)
      modifies this
      ensures reply == if S.Accepts(old(Writer())) then Waiting else Rejected
      ensures forall s: S.System :: s.writer == old(Writer()) ==>
          S.OnDrain(s).writer == Writer() && (s.requests == old(posted) ==> S.OnDrain(s).requests == posted)
    {
      if firstError || exited {
        return Rejected;
      }
      var id := nextDrainId;
      nextDrainId := nextDrainId + 1;
      drainWaiters := drainWaiters + {id};
      posted := posted + [S.DrainUpTo(id)];
      return Waiting;
    }

    method Close()
      modifies this
      ensures Writer() == old(Writer()) && posted == if exited then old(posted) else old(posted) + [S.Close]
    {
      if exited {
        return;
      }
      posted := posted + [S.Close];
    }

    method OnMessage(message: S.Reply)
      modifies this
      ensures Writer() == S.Receive(old(Writer()), message) && posted == old(posted)
    {
      match message
      case Ready =>
        readyPromise := if readyPromise == S.Pending then S.Fulfilled else readyPromise;
      case Ack =>
        SettleOne();
      case Drained(id) =>
        if id !in drainWaiters {
          return;
        }
        drainWaiters := drainWaiters - {id};
        drains := drains[id := !firstError];
      case Failed(_) =>
        if !firstError {
          firstError := true;
        }
        SettleOne();
    }

    method OnWorkerError()
      modifies this
      ensures Writer() == S.OnError(old(Writer())) && posted == old(posted)
    {
      FailAll();
      readyPromise := if readyPromise == S.Pending then S.Broken else readyPromise;
    }

    method OnExit(code: int)
      modifies this
      ensures Writer() == S.OnExit(old(Writer()), code) && posted == old(posted)
    {
      exited := true;
      if code != 0 {
        OnWorkerError();
      } else if |drainWaiters| > 0 || |belowWaiters| > 0 {
        FailAll();
      }
    }

    /** One bundle was answered: the waiters whose limit is undercut now are released. */
    method SettleOne()
      modifies this
      ensures Writer() == S.SettleOne(old(Writer())) && posted == old(posted)
    {
      hide S.StillWaiting;
      if outstanding > 0 {
        outstanding := outstanding - 1;
      }
      ReleaseBelow();
    }

    method ReleaseBelow()
      modifies `belowWaiters
      ensures belowWaiters == S.StillWaiting(old(belowWaiters), outstanding)
    {
      var remaining: seq<nat> := [];
      var i := 0;
      while i < |belowWaiters|
        modifies {}
        invariant 0 <= i <= |belowWaiters|
        invariant remaining + S.StillWaiting(belowWaiters[i..], outstanding) ==
            S.StillWaiting(belowWaiters, outstanding)
      {
        assert belowWaiters[i..][1..] == belowWaiters[i + 1..];
        if !(outstanding < belowWaiters[i]) {
          remaining := remaining + [belowWaiters[i]];
        }
        i := i + 1;
      }
      belowWaiters := remaining;
    }

    method FailAll()
      modifies this
      ensures Writer() == S.FailAll(old(Writer())) && posted == old(posted)
    {
      if !firstError {
        firstError := true;
      }
      RejectDrains();
      outstanding := 0;
      belowWaiters := [];
    }

    method RejectDrains()
      modifies `drains, `drainWaiters
      ensures drains == old(drains) + (map id | id in old(drainWaiters) :: false) && drainWaiters == {}
    {
      var waiting := drainWaiters;
      ghost var rejected: set<nat> := {};
      while waiting != {}
        invariant waiting + rejected == drainWaiters
        invariant drains == old(drains) + (map id | id in rejected :: false)
        modifies `drains
        decreases |waiting|
      {
        var id :| id in waiting;
        waiting := waiting - {id};
        drains := drains[id := false];
        rejected := rejected + {id};
      }
      drainWaiters := {};
    }
  }

  class StoreWorker {
    var running: bool
    var connected: bool
    var stored: seq<S.Bundle>

    ghost function State(): S.Worker
      reads this
    {
      S.Worker(running, connected, stored)
    }

    constructor ()
      ensures State() == S.Initial().worker
    {
      running, connected, stored := true, false, [];
    }

    /**
     Handles one request; `succeeds` tells whether the database does what it is asked.
     A bundle is stored as a whole or not at all.
     */
    method OnRequest(request: S.Request, succeeds: bool) returns (replies: seq<S.Reply>)
      modifies this
      ensures forall s: S.System :: s.worker == old(State()) && s.requests != [] && s.requests[0] == request ==>
          S.OnHandle(s, succeeds).worker == State() && S.OnHandle(s, succeeds).replies == s.replies + replies
    {
      match request
      case Open =>
        if !succeeds {
          return [S.Failed(false)];
        }
        connected := true;
        return [S.Ready];
      case Store(bundle) =>
        if !connected || !succeeds {
          return [S.Failed(true)];
        }
        stored := stored + [bundle];
        return [S.Ack];
      case DrainUpTo(id) =>
        return [S.Drained(id)];
      case Close =>
        running := false;
        return [];
    }
  }

  // ---------------------------------------------------------------- admitting a batch

  /** What became of one file of a batch. */
  datatype Outcome = Unread | ParseFailed | Extracted(bundle: S.Bundle, nodes: nat, errors: nat)

  /** A file is stored when it has symbols, or none and no errors. */
  predicate Stores(o: Outcome) {
    o.Extracted? && (o.nodes > 0 || o.errors == 0)
  }

  /** The bundles to be stored, in the order in which the files were found. */
  function Admitted(outcomes: seq<Outcome>): seq<S.Bundle> {
    if outcomes == [] then []
    else
      var last := outcomes[|outcomes| - 1];
      Admitted(outcomes[..|outcomes| - 1]) + (if Stores(last) then [last.bundle] else [])
  }

  /** How the admission of a batch ends: a refused bundle is an error, and a wait may not be over yet. */
  datatype Admission = Finished | Refused | Aborted | StillWaiting

  /** The system between two bundles of an admission with this window. */
  ghost predicate InWindow(s: S.System, window: nat) {
    S.Inv(s) && S.Windowed(s, window) && S.OneWindow(s.writer, window)
  }

  /** What can happen while the main thread waits. */
  predicate Elsewhere(events: seq<S.Event>) {
    forall e :: e in events ==> !e.Send? && !e.WaitBelow?
  }

  /** Nothing goes wrong meanwhile. */
  predicate Undisturbed(events: seq<S.Event>) {
    forall e :: e in events ==> D.Undisturbed(e)
  }

  lemma CalmAccepts(s: S.System)
    requires D.Calm(s)
    ensures S.Accepts(s.writer)
  {
  }

  /** Whoever still waits has not been waiting to the end. */
  lemma WaitingIsNoRest(s: S.System, window: nat)
    requires InWindow(s, window) && window >= 1 && s.writer.belowWaiters != []
    ensures !S.AtRest(s)
  {
    assert s.writer.belowWaiters[0] in s.writer.belowWaiters;
    if S.AtRest(s) { S.RestLeavesNoWaiter(s); }
  }

  /** The events that can happen, happen; they send nothing and leave the marks of drains. */
  method Meanwhile(s: S.System, events: seq<S.Event>, window: nat) returns (r: S.System)
    requires InWindow(s, window) && Elsewhere(events)
    ensures InWindow(r, window) && r.sent == s.sent
    ensures s.writer.belowWaiters == [] ==> r.writer.belowWaiters == []
    ensures forall id :: id in s.marks ==> id in r.marks && r.marks[id] == s.marks[id]
    ensures D.Calm(s) && Undisturbed(events) ==> D.Calm(r)
  {
    hide S.Inv, S.Windowed, S.OneWindow, D.Calm, D.Undisturbed;
    r := s;
    for k := 0 to |events|
      invariant InWindow(r, window) && r.sent == s.sent
      invariant D.Calm(s) && Undisturbed(events) ==> D.Calm(r)
      invariant s.writer.belowWaiters == [] ==> r.writer.belowWaiters == []
      invariant forall id :: id in s.marks ==> id in r.marks && r.marks[id] == s.marks[id]
    {
      assert events[k] in events;
      if S.Enabled(r, events[k]) {
        S.StepKeepsWindow(r, events[k], window);
        S.DrainMarksItsPlace(r, events[k]);
        SendsNothing(r, events[k]);
        if D.Calm(r) && Undisturbed(events) { D.StepStaysCalm(r, events[k]); }
        if s.writer.belowWaiters == [] { NobodyWaits(r, events[k]); }
        r := S.Step(r, events[k]);
      }
    }
  }

  lemma SendsNothing(s: S.System, e: S.Event)
    requires S.Enabled(s, e) && !e.Send?
    ensures S.Step(s, e).sent == s.sent
  {
  }

  lemma NobodyWaits(s: S.System, e: S.Event)
    requires S.Enabled(s, e) && !e.WaitBelow? && s.writer.belowWaiters == []
    ensures S.Step(s, e).writer.belowWaiters == []
  {
  }

  /** Parses finish in any order; the results are kept in the order of the files. */
  method Collect(outcomes: seq<Outcome>, finished: seq<nat>) returns (parsed: array<Outcome>)
    requires forall k :: k in finished ==> k < |outcomes|
    requires forall i :: 0 <= i < |outcomes| ==> i in finished
    ensures parsed[..] == outcomes
  {
    parsed := new Outcome[|outcomes|](_ => Unread);
    for k := 0 to |finished|
      invariant forall i :: 0 <= i < |outcomes| && i in finished[..k] ==> parsed[i] == outcomes[i]
    {
      assert finished[k] in finished;
      parsed[finished[k]] := outcomes[finished[k]];
      assert finished[..k + 1] == finished[..k] + [finished[k]];
    }
    assert finished[..|finished|] == finished;
  }

  /**
   Parses finish in any order `finished`; the bundles are sent in the order of the files
   all the same, and after each the loop waits until fewer than the window's number are
   under way. `between[i]` happens after file `i` was looked at, and the signal to abort
   comes before file `abortAt`. However the admission ends, the bundles sent are those of
   the first files, and the window holds.
   */
  method AdmitBatch(before: S.System, outcomes: seq<Outcome>, finished: seq<nat>, between: seq<seq<S.Event>>,
      abortAt: nat, window: nat)
    returns (s: S.System, admission: Admission, ghost upTo: nat)
    requires forall k :: k in finished ==> k < |outcomes|
    requires forall i :: 0 <= i < |outcomes| ==> i in finished
    requires |between| == |outcomes| && forall i :: 0 <= i < |between| ==> Elsewhere(between[i])
    requires window >= 1 && InWindow(before, window) && before.writer.belowWaiters == []
    ensures InWindow(s, window) && S.UnderWay(s) <= window
    ensures upTo <= |outcomes| && s.sent == before.sent + Admitted(outcomes[..upTo])
    ensures match admission
            case Finished => upTo == |outcomes| && s.writer.belowWaiters == []
            case Refused => upTo < |outcomes| && !S.Accepts(s.writer) && Stores(outcomes[upTo])
            case Aborted => upTo == abortAt < |outcomes|
            case StillWaiting => s.writer.belowWaiters != []
    ensures D.Calm(before) && (forall i :: 0 <= i < |between| ==> Undisturbed(between[i])) && abortAt >= |outcomes| ==>
        D.Calm(s) && (admission.Finished? || admission.StillWaiting?)
  {
    hide S.Inv, S.Windowed, S.OneWindow, S.Admit, S.Step, D.Calm, Undisturbed;
    ghost var calm := D.Calm(before) && (forall i :: 0 <= i < |between| ==> Undisturbed(between[i]))
                      && abortAt >= |outcomes|;
    var parsed := Collect(outcomes, finished);
    s, upTo := before, 0;
    assert outcomes[..0] == [];
    for i := 0 to parsed.Length
      invariant parsed[..] == outcomes && InWindow(s, window) && s.writer.belowWaiters == []
      invariant s.sent == before.sent + Admitted(outcomes[..i])
      invariant calm ==> D.Calm(s)
    {
      upTo := i;
      S.WindowedBounds(s, window);
      if i == abortAt {
        S.StepKeepsWindow(s, S.Shut, window);
        S.WindowedBounds(S.Step(s, S.Shut), window);
        SendsNothing(s, S.Shut);
        return S.Step(s, S.Shut), Aborted, upTo;
      }
      assert parsed[i] == parsed[..][i] && outcomes[..i + 1][..i] == outcomes[..i];
      if Stores(parsed[i]) {
        if calm { CalmAdmits(s, parsed[i].bundle, window); }
        if !S.Accepts(s.writer) {
          return s, Refused, upTo;
        }
        S.AdmitKeepsWindow(s, parsed[i].bundle, window);
        AdmitSends(s, parsed[i].bundle, window);
        s := S.Admit(s, parsed[i].bundle, window);
      }
      upTo := i + 1;
      s := Meanwhile(s, between[i], window);
      S.WindowedBounds(s, window);
      if s.writer.belowWaiters != [] {
        return s, StillWaiting, upTo;
      }
    }
    upTo := |outcomes|;
    S.WindowedBounds(s, window);
    assert outcomes[..|outcomes|] == outcomes;
    admission := Finished;
  }

  lemma CalmAdmits(s: S.System, bundle: S.Bundle, window: nat)
    requires D.Calm(s)
    ensures S.Accepts(s.writer) && D.Calm(S.Admit(s, bundle, window))
  {
    D.StepStaysCalm(s, S.Send(bundle));
    D.StepStaysCalm(S.OnSend(s, bundle), S.WaitBelow(window));
  }

  lemma AdmitSends(s: S.System, bundle: S.Bundle, window: nat)
    requires S.Accepts(s.writer)
    ensures S.Admit(s, bundle, window).sent == s.sent + [bundle]
  {
  }

  lemma CalmResolves(s: S.System, id: nat)
    requires S.Inv(s) && D.Calm(s) && S.AtRest(s) && id in s.marks
    ensures id in s.writer.drains && s.writer.drains[id]
  {
    D.CalmRest(s);
    hide S.Ordered, S.Honest, S.Behind, S.Truthful, S.Kept, S.Counted, S.Served;
  }

  // ---------------------------------------------------------------- a fresh index

  /**
   A batch of files: what became of each, the order in which the parses finish, what
   happens while they are parsed and after each file was looked at, and where the signal
   to abort comes, if it does.
   */
  datatype Batch = Batch(outcomes: seq<Outcome>, finished: seq<nat>, meanwhile: seq<S.Event>,
    between: seq<seq<S.Event>>, abortAt: nat)
  {
    predicate Valid() {
      && (forall k :: k in finished ==> k < |outcomes|)
      && (forall i :: 0 <= i < |outcomes| ==> i in finished)
      && |between| == |outcomes| && Elsewhere(meanwhile)
      && (forall i :: 0 <= i < |between| ==> Elsewhere(between[i]))
    }
  }

  /** Nothing goes wrong while these batches are indexed, and no signal to abort comes. */
  predicate AllUndisturbed(batches: seq<Batch>) {
    forall k :: 0 <= k < |batches| ==>
      && Undisturbed(batches[k].meanwhile) && batches[k].abortAt >= |batches[k].outcomes|
      && forall i :: 0 <= i < |batches[k].between| ==> Undisturbed(batches[k].between[i])
  }

  function AllOutcomes(batches: seq<Batch>): seq<Outcome> {
    if batches == [] then [] else AllOutcomes(batches[..|batches| - 1]) + batches[|batches| - 1].outcomes
  }

  lemma {:induction false} AdmittedJoin(a: seq<Outcome>, b: seq<Outcome>)
    ensures Admitted(a + b) == Admitted(a) + Admitted(b)
    decreases |b|
  {
    if b == [] {
      assert a + b == a;
    } else {
      assert (a + b)[..|a + b| - 1] == a + b[..|b| - 1];
      AdmittedJoin(a, b[..|b| - 1]);
    }
  }

  /** The batches one after the other, until one does not finish. */
  method AdmitBatches(batches: seq<Batch>, window: nat) returns (s: S.System, finished: bool)
    requires window >= 1 && forall k :: 0 <= k < |batches| ==> batches[k].Valid()
    ensures InWindow(s, window) && S.UnderWay(s) <= window
    ensures finished ==> s.sent == Admitted(AllOutcomes(batches)) && s.writer.belowWaiters == []
    ensures AllUndisturbed(batches) ==> D.Calm(s) && (finished || s.writer.belowWaiters != [])
  {
    hide S.Inv, S.Windowed, S.OneWindow, S.Step, D.Calm, Undisturbed;
    S.WindowHolds([S.Initial()], [], window, 0);
    D.InitialIsCalm();
    s, finished := S.Initial(), true;
    assert AllOutcomes(batches[..0]) == [];
    for k := 0 to |batches|
      invariant InWindow(s, window) && s.writer.belowWaiters == []
      invariant s.sent == Admitted(AllOutcomes(batches[..k]))
      invariant AllUndisturbed(batches) ==> D.Calm(s)
    {
      var batch := batches[k];
      assert batch.Valid();
      s := Meanwhile(s, batch.meanwhile, window);
      var admission;
      ghost var upTo;
      s, admission, upTo := AdmitBatch(s, batch.outcomes, batch.finished, batch.between, batch.abortAt, window);
      if !admission.Finished? {
        return s, false;
      }
      assert batches[..k + 1][..k] == batches[..k] && batch.outcomes[..upTo] == batch.outcomes;
      AdmittedJoin(AllOutcomes(batches[..k]), batch.outcomes);
    }
    S.WindowedBounds(s, window);
    assert batches[..|batches|] == batches;
  }

  /**
   A fresh index: the batches, a drain, and what happens until it is settled. If the drain
   resolves, exactly the bundles of all batches are stored, in the order of the files. It does
   resolve if nothing goes wrong and the system is left alone until it comes to rest.
   */
  method IndexFresh(batches: seq<Batch>, after: seq<S.Event>, window: nat) returns (s: S.System, resolved: bool)
    requires window >= 1 && Elsewhere(after) && forall k :: 0 <= k < |batches| ==> batches[k].Valid()
    ensures resolved ==> s.worker.stored == Admitted(AllOutcomes(batches))
    ensures S.UnderWay(s) <= window && S.Inv(s)
    ensures AllUndisturbed(batches) && Undisturbed(after) && S.AtRest(s) ==> resolved
  {
    hide S.Inv, S.Windowed, S.OneWindow, S.Step, D.Calm, Undisturbed, AllUndisturbed, S.AtRest;
    ghost var calm := AllUndisturbed(batches) && Undisturbed(after);
    var finished;
    s, finished := AdmitBatches(batches, window);
    if calm { CalmAccepts(s); }
    if !finished && calm { WaitingIsNoRest(s, window); }
    resolved := false;
    if finished && S.Accepts(s.writer) {
      var id := s.writer.nextDrainId;
      S.StepKeepsWindow(s, S.Drain, window);
      S.DrainMarksItsPlace(s, S.Drain);
      SendsNothing(s, S.Drain);
      if calm { D.StepStaysCalm(s, S.Drain); }
      s := S.Step(s, S.Drain);
      s := Meanwhile(s, after, window);
      resolved := id in s.writer.drains && s.writer.drains[id];
      if calm && S.AtRest(s) { CalmResolves(s, id); }
      if resolved { S.FreshIndexIsComplete(s, id); }
    }
    S.WindowedBounds(s, window);
  }
}
