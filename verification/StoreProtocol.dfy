/**
 The protocol between the main thread and the store worker of a fresh index: two
 first-in-first-out channels, a window on the bundles under way, and drain barriers.
 */
module StoreProtocol {
  type Bundle = nat

  datatype Promise = Pending | Fulfilled | Broken

  /** What the main thread posts to the worker. */
  datatype Request = Open | Store(bundle: Bundle) | DrainUpTo(id: nat) | Close

  /** What the worker posts back. `forBundle` tells a failure to store from a failure to open. */
  datatype Reply = Ready | Ack | Drained(id: nat) | Failed(forBundle: bool)

  /** The main thread's side. `drains` holds the drains settled so far: true if resolved, false if rejected. */
  datatype Writer = Writer(
    failed: bool, exited: bool, outstanding: nat, nextDrainId: nat, drainWaiters: set<nat>,
    belowWaiters: seq<nat>, ready: Promise, drains: map<nat, bool>)

  datatype Worker = Worker(running: bool, connected: bool, stored: seq<Bundle>)

  /**
   Both sides and the channels between them. `sent` are the bundles posted so far,
   `results` how storing the first of them went, and `marks` how many had been posted
   when each drain was asked for.
   */
  datatype System = System(
    writer: Writer, requests: seq<Request>, worker: Worker, replies: seq<Reply>,
    sent: seq<Bundle>, results: seq<bool>, marks: map<nat, nat>)

  function Initial(): System {
    System(Writer(false, false, 0, 0, {}, [], Pending, map[]), [Open], Worker(true, false, []), [], [], [], map[])
  }

  // ---------------------------------------------------------------- the main thread's handlers

  /** The waiters whose limit is not undercut. */
  function StillWaiting(waiters: seq<nat>, outstanding: nat): (r: seq<nat>)
    ensures forall limit :: limit in r <==> limit in waiters && limit <= outstanding
    ensures waiters == [] ==> r == []
  {
    if waiters == [] then []
    else (if outstanding < waiters[0] then [] else [waiters[0]]) + StillWaiting(waiters[1..], outstanding)
  }

  function SettleOne(w: Writer): Writer {
    var left := if w.outstanding > 0 then w.outstanding - 1 else 0;
    w.(outstanding := left, belowWaiters := StillWaiting(w.belowWaiters, left))
  }

  function FailAll(w: Writer): Writer {
    w.(failed := true, drains := w.drains + (map id | id in w.drainWaiters :: false), drainWaiters := {},
        outstanding := 0, belowWaiters := [])
  }

  function Broke(ready: Promise): Promise {
    if ready == Pending then Broken else ready
  }

  function Receive(w: Writer, reply: Reply): Writer {
    match reply
    case Ready => w.(ready := if w.ready == Pending then Fulfilled else w.ready)
    case Ack => SettleOne(w)
    case Drained(id) => if id !in w.drainWaiters then w
        else w.(drainWaiters := w.drainWaiters - {id}, drains := w.drains[id := !w.failed])
    case Failed(_) => SettleOne(w.(failed := true))
  }

  function OnError(w: Writer): Writer {
    var r := FailAll(w);
    r.(ready := Broke(w.ready))
  }

  function OnExit(w: Writer, code: int): Writer {
    var r := w.(exited := true);
    if code != 0 then OnError(r)
    else if w.drainWaiters != {} || w.belowWaiters != [] then FailAll(r)
    else r
  }

  // ---------------------------------------------------------------- steps

  /** Calls by the main thread, and what the worker, the channels and the runtime do in between. */
  datatype Event =
    | Send(bundle: Bundle) | WaitBelow(limit: nat) | Drain | Shut
    | Handle(succeeds: bool) | Deliver | WorkerError | Stop | Exit(code: int)

  predicate Enabled(s: System, e: Event) {
    match e
    case Handle(_) => s.worker.running && s.requests != []
    case Deliver => s.replies != []
    case WorkerError => s.worker.running
    case Stop => s.worker.running
    case Exit(_) => !s.worker.running && !s.writer.exited
    case _ => true
  }

  predicate Accepts(w: Writer) {
    !w.failed && !w.exited
  }

  function OnSend(s: System, bundle: Bundle): System {
    if !Accepts(s.writer) then s
    else
      s.(writer := s.writer.(outstanding := s.writer.outstanding + 1), requests := s.requests + [Store(bundle)],
          sent := s.sent + [bundle])
  }

  function Waits(w: Writer, limit: nat): Writer {
    if !Accepts(w) || w.outstanding < limit then w else w.(belowWaiters := w.belowWaiters + [limit])
  }

  function OnDrain(s: System): System {
    var id := s.writer.nextDrainId;
    if !Accepts(s.writer) then s
    else s.(writer := s.writer.(nextDrainId := id + 1, drainWaiters := s.writer.drainWaiters + {id}),
            requests := s.requests + [DrainUpTo(id)], marks := s.marks[id := |s.sent|])
  }

  /** The worker takes the next request: a bundle needs an open database, and any failure is reported. */
  function OnHandle(s: System, succeeds: bool): System
    requires s.requests != []
  {
    var rest, w := s.requests[1..], s.worker;
    match s.requests[0]
    case Open =>
      s.(requests := rest, worker := w.(connected := w.connected || succeeds),
          replies := s.replies + [if succeeds then Ready else Failed(false)])
    case Store(bundle) =>
      var ok := w.connected && succeeds;
      s.(requests := rest, worker := if ok then w.(stored := w.stored + [bundle]) else w,
         replies := s.replies + [if ok then Ack else Failed(true)], results := s.results + [ok])
    case DrainUpTo(id) => s.(requests := rest, replies := s.replies + [Drained(id)])
    case Close => s.(requests := rest, worker := w.(running := false))
  }

  function Step(s: System, e: Event): System
    requires Enabled(s, e)
  {
    match e
    case Send(bundle) => OnSend(s, bundle)
    case WaitBelow(limit) => s.(writer := Waits(s.writer, limit))
    case Drain => OnDrain(s)
    case Shut => if s.writer.exited then s else s.(requests := s.requests + [Close])
    case Handle(succeeds) => OnHandle(s, succeeds)
    case Deliver => s.(writer := Receive(s.writer, s.replies[0]), replies := s.replies[1..])
    case WorkerError => s.(writer := OnError(s.writer), worker := s.worker.(running := false))
    case Stop => s.(worker := s.worker.(running := false))
    case Exit(code) => s.(writer := OnExit(s.writer, code))
  }

  // ---------------------------------------------------------------- the channels

  /** The bundles among the requests. */
  function Bundles(requests: seq<Request>): seq<Bundle> {
    if requests == [] then []
    else (if requests[0].Store? then [requests[0].bundle] else []) + Bundles(requests[1..])
  }

  /** The answers to bundles among the replies. */
  function Answers(replies: seq<Reply>): nat {
    if replies == [] then 0
    else (if replies[0].Ack? || (replies[0].Failed? && replies[0].forBundle) then 1 else 0) + Answers(replies[1..])
  }

  lemma {:induction false} BundlesAppend(a: seq<Request>, b: seq<Request>)
    ensures Bundles(a + b) == Bundles(a) + Bundles(b)
  {
    if a == [] {
      assert a + b == b;
    } else {
      assert (a + b)[0] == a[0] && (a + b)[1..] == a[1..] + b;
      BundlesAppend(a[1..], b);
    }
  }

  lemma {:induction false} AnswersAppend(a: seq<Reply>, b: seq<Reply>)
    ensures Answers(a + b) == Answers(a) + Answers(b)
  {
    if a == [] {
      assert a + b == b;
    } else {
      assert (a + b)[0] == a[0] && (a + b)[1..] == a[1..] + b;
      AnswersAppend(a[1..], b);
    }
  }

  predicate AllTrue(flags: seq<bool>) {
    forall k :: 0 <= k < |flags| ==> flags[k]
  }

  predicate NoFailure(replies: seq<Reply>) {
    forall k :: 0 <= k < |replies| ==> !replies[k].Failed?
  }

  /** The bundles that were stored, in the order they were sent. */
  function Chosen(sent: seq<Bundle>, results: seq<bool>): seq<Bundle>
    requires |results| <= |sent|
  {
    if results == [] then []
    else
      var last := |results| - 1;
      Chosen(sent, results[..last]) + (if results[last] then [sent[last]] else [])
  }

  lemma {:induction false} ChosenOfMore(sent: seq<Bundle>, bundle: Bundle, results: seq<bool>)
    requires |results| <= |sent|
    ensures Chosen(sent + [bundle], results) == Chosen(sent, results)
  {
    if results != [] {
      ChosenOfMore(sent, bundle, results[..|results| - 1]);
    }
  }

  /** While nothing failed, a prefix of what was sent is stored, and it stays stored. */
  lemma {:induction false} ChosenPrefix(sent: seq<Bundle>, results: seq<bool>, m: nat)
    requires m <= |results| <= |sent| && AllTrue(results[..m])
    ensures sent[..m] <= Chosen(sent, results)
    ensures m == |results| ==> Chosen(sent, results) == sent[..m]
  {
    if results != [] {
      var last := |results| - 1;
      if m == |results| {
        assert results[..m][last];
        assert forall k :: 0 <= k < last ==> results[..last][k] == results[..m][k];
        ChosenPrefix(sent, results[..last], last);
        assert sent[..m] == sent[..last] + [sent[last]];
      } else {
        assert results[..last][..m] == results[..m];
        ChosenPrefix(sent, results[..last], m);
      }
    }
  }

  // ---------------------------------------------------------------- the invariant

  /** The worker stores bundles in the order they were sent; the rest are still under way. */
  ghost predicate Ordered(requests: seq<Request>, stored: seq<Bundle>, sent: seq<Bundle>, results: seq<bool>) {
    |results| <= |sent| && Bundles(requests) == sent[|results|..] && stored == Chosen(sent, results)
  }

  /** A failure is known to the writer or on its way. */
  ghost predicate Honest(failed: bool, replies: seq<Reply>, results: seq<bool>) {
    !failed && NoFailure(replies) ==> AllTrue(results)
  }

  /** A drain request lies behind exactly the bundles sent before it. */
  ghost predicate Behind(requests: seq<Request>, marks: map<nat, nat>, done: nat) {
    forall k :: 0 <= k < |requests| && requests[k].DrainUpTo? ==>
      requests[k].id in marks && marks[requests[k].id] == done + |Bundles(requests[..k])|
  }

  ghost predicate StoredUpTo(results: seq<bool>, m: nat) {
    m <= |results| && AllTrue(results[..m])
  }

  /** A drained reply lies behind every earlier failure. */
  ghost predicate Truthful(replies: seq<Reply>, marks: map<nat, nat>, results: seq<bool>, failed: bool) {
    forall k :: 0 <= k < |replies| && replies[k].Drained? ==>
      && replies[k].id in marks && marks[replies[k].id] <= |results|
      && (failed || !NoFailure(replies[..k]) || StoredUpTo(results, marks[replies[k].id]))
  }

  /** A drain resolves only when all it waited for is stored, and is rejected only after a failure. */
  ghost predicate Kept(drains: map<nat, bool>, marks: map<nat, nat>, results: seq<bool>, failed: bool) {
    forall id :: id in drains ==> if drains[id] then id in marks && StoredUpTo(results, marks[id]) else failed
  }

  /** Every drain is settled or waits for an answer that is under way. */
  ghost predicate Awaited(w: Writer, requests: seq<Request>, replies: seq<Reply>, marks: map<nat, nat>) {
    && (forall id: nat :: id in marks <==> id < w.nextDrainId)
    && (forall id :: id in marks <==> id in w.drains || id in w.drainWaiters)
    && w.drains.Keys !! w.drainWaiters
    && (forall id :: id in w.drainWaiters ==> DrainUpTo(id) in requests || Drained(id) in replies)
  }

  /** `outstanding` never exceeds the bundles under way, and is exact until a failure. */
  ghost predicate Counted(w: Writer, requests: seq<Request>, replies: seq<Reply>) {
    && w.outstanding <= |Bundles(requests)| + Answers(replies)
    && (!w.failed ==> w.outstanding == |Bundles(requests)| + Answers(replies))
  }

  ghost predicate Served(w: Writer, running: bool) {
    && (forall limit :: limit in w.belowWaiters ==> limit <= w.outstanding)
    && (w.exited ==> !running && w.drainWaiters == {} && w.belowWaiters == [])
  }

  ghost predicate Inv(s: System) {
    && Ordered(s.requests, s.worker.stored, s.sent, s.results)
    && Honest(s.writer.failed, s.replies, s.results)
    && Behind(s.requests, s.marks, |s.results|)
    && Truthful(s.replies, s.marks, s.results, s.writer.failed)
    && Kept(s.writer.drains, s.marks, s.results, s.writer.failed)
    && Awaited(s.writer, s.requests, s.replies, s.marks)
    && Counted(s.writer, s.requests, s.replies)
    && Served(s.writer, s.worker.running)
  }

  // ---------------------------------------------------------------- posting

  lemma Posted(s: System, request: Request)
    requires Inv(s) && (request.Open? || request.Close?)
    ensures Inv(s.(requests := s.requests + [request]))
  {
    hide Chosen, Answers, Kept, Truthful, Honest, Served;
    BundlesAppend(s.requests, [request]);
    BehindMore(s.requests, s.marks, |s.results|, request);
  }

  lemma BehindMore(requests: seq<Request>, marks: map<nat, nat>, done: nat, request: Request)
    requires Behind(requests, marks, done)
    requires request.DrainUpTo? ==> request.id in marks && marks[request.id] == done + |Bundles(requests)|
    ensures Behind(requests + [request], marks, done)
  {
    hide Bundles;
    var all := requests + [request];
    forall k | 0 <= k < |all| && all[k].DrainUpTo?
      ensures all[k].id in marks && marks[all[k].id] == done + |Bundles(all[..k])|
    {
      if k < |requests| {
        assert all[..k] == requests[..k] && all[k] == requests[k];
      } else {
        assert all[..k] == requests;
      }
    }
  }

  lemma SendKeeps(s: System, bundle: Bundle)
    requires Inv(s)
    ensures Inv(OnSend(s, bundle))
  {
    hide Answers, Kept, Truthful, Honest;
    if Accepts(s.writer) {
      BundlesAppend(s.requests, [Store(bundle)]);
      assert Bundles([Store(bundle)]) == [bundle];
      ChosenOfMore(s.sent, bundle, s.results);
      BehindMore(s.requests, s.marks, |s.results|, Store(bundle));
      assert (s.sent + [bundle])[|s.results|..] == s.sent[|s.results|..] + [bundle];
    }
  }

  lemma MarksMore(s: System, id: nat, n: nat)
    requires Inv(s) && id !in s.marks
    ensures var marks := s.marks[id := n];
            && Behind(s.requests, marks, |s.results|)
            && Truthful(s.replies, marks, s.results, s.writer.failed)
            && Kept(s.writer.drains, marks, s.results, s.writer.failed)
  {
    hide Ordered, Honest, Awaited, Counted, Served, Bundles, StoredUpTo, NoFailure;
  }

  lemma AwaitedMore(w: Writer, requests: seq<Request>, replies: seq<Reply>, marks: map<nat, nat>, n: nat)
    requires Awaited(w, requests, replies, marks)
    ensures w.nextDrainId !in marks
    ensures Awaited(w.(nextDrainId := w.nextDrainId + 1, drainWaiters := w.drainWaiters + {w.nextDrainId}),
        requests + [DrainUpTo(w.nextDrainId)], replies, marks[w.nextDrainId := n])
  {
  }

  lemma DrainKeeps(s: System)
    requires Inv(s)
    ensures Inv(OnDrain(s))
  {
    hide Chosen, Answers, Honest, Behind, Truthful, Kept, Awaited;
    if Accepts(s.writer) {
      var id := s.writer.nextDrainId;
      BundlesAppend(s.requests, [DrainUpTo(id)]);
      assert Bundles([DrainUpTo(id)]) == [];
      AwaitedMore(s.writer, s.requests, s.replies, s.marks, |s.sent|);
      MarksMore(s, id, |s.sent|);
      BehindMore(s.requests, s.marks[id := |s.sent|], |s.results|, DrainUpTo(id));
    }
  }

  // ---------------------------------------------------------------- the worker

  lemma BehindLess(requests: seq<Request>, marks: map<nat, nat>, done: nat)
    requires requests != [] && Behind(requests, marks, done)
    ensures Behind(requests[1..], marks, if requests[0].Store? then done + 1 else done)
  {
    var rest := requests[1..];
    forall k | 0 <= k < |rest| && rest[k].DrainUpTo?
      ensures rest[k].id in marks && marks[rest[k].id] == (if requests[0].Store? then done + 1 else done) +
          |Bundles(rest[..k])|
    {
      assert requests[k + 1] == rest[k];
      assert requests[..k + 1] == [requests[0]] + rest[..k];
      BundlesAppend([requests[0]], rest[..k]);
      assert [requests[0]][1..] == [];
    }
  }

  /** A reply posted behind the others. */
  lemma TruthfulMore(replies: seq<Reply>, marks: map<nat, nat>, results: seq<bool>, after: seq<bool>, failed: bool,
      reply: Reply)
    requires Truthful(replies, marks, results, failed) && results <= after
    requires reply.Drained? ==>
        reply.id in marks && marks[reply.id] <= |after| &&
        (failed || !NoFailure(replies) || StoredUpTo(after, marks[reply.id]))
    ensures Truthful(replies + [reply], marks, after, failed)
  {
    hide NoFailure;
    var all := replies + [reply];
    forall k | 0 <= k < |all| && all[k].Drained?
      ensures all[k].id in marks && marks[all[k].id] <= |after|
      ensures failed || !NoFailure(all[..k]) || StoredUpTo(after, marks[all[k].id])
    {
      if k < |replies| {
        assert all[k] == replies[k] && all[..k] == replies[..k];
        StillStored(results, after, marks[all[k].id]);
      } else {
        assert all[..k] == replies;
      }
    }
  }

  lemma StillStored(results: seq<bool>, after: seq<bool>, m: nat)
    requires results <= after && m <= |results|
    ensures StoredUpTo(results, m) ==> StoredUpTo(after, m)
  {
    assert after[..m] == results[..m];
  }

  lemma KeptMore(drains: map<nat, bool>, marks: map<nat, nat>, results: seq<bool>, after: seq<bool>, failed: bool)
    requires Kept(drains, marks, results, failed) && results <= after
    ensures Kept(drains, marks, after, failed)
  {
    hide StoredUpTo;
    forall id | id in drains && drains[id] ensures StoredUpTo(after, marks[id]) {
      assert marks[id] <= |results| by { Bounded(results, marks[id]); }
      StillStored(results, after, marks[id]);
    }
  }

  lemma Bounded(results: seq<bool>, m: nat)
    requires StoredUpTo(results, m)
    ensures m <= |results|
  {
  }

  lemma AwaitedHandled(w: Writer, requests: seq<Request>, replies: seq<Reply>, marks: map<nat, nat>, more: seq<Reply>)
    requires requests != [] && Awaited(w, requests, replies, marks)
    requires requests[0].DrainUpTo? ==> Drained(requests[0].id) in more
    ensures Awaited(w, requests[1..], replies + more, marks)
  {
    assert requests == [requests[0]] + requests[1..];
  }

  lemma HandleStoreKeeps(s: System, succeeds: bool)
    requires Inv(s) && s.requests != [] && s.requests[0].Store?
    ensures Inv(OnHandle(s, succeeds))
  {
    hide Answers, Behind, Truthful, Kept, Awaited, StoredUpTo;
    var r := OnHandle(s, succeeds);
    var ok, reply := s.worker.connected && succeeds, r.replies[|s.replies|];
    assert r.results == s.results + [ok] && r.replies == s.replies + [reply];
    assert s.sent[|s.results|] == s.requests[0].bundle;
    assert r.results[..|s.results|] == s.results;
    BehindLess(s.requests, s.marks, |s.results|);
    AnswersAppend(s.replies, [reply]);
    OneAnswer(reply);
    TruthfulMore(s.replies, s.marks, s.results, r.results, s.writer.failed, reply);
    KeptMore(s.writer.drains, s.marks, s.results, r.results, s.writer.failed);
    AwaitedHandled(s.writer, s.requests, s.replies, s.marks, [reply]);
    if !ok {
      assert r.replies[|s.replies|].Failed?;
    } else if NoFailure(r.replies) {
      assert forall k :: 0 <= k < |s.replies| ==> s.replies[k] == r.replies[k];
    }
  }

  lemma OneAnswer(reply: Reply)
    ensures Answers([reply]) == if reply.Ack? || (reply.Failed? && reply.forBundle) then 1 else 0
  {
    assert [reply][1..] == [];
  }

  lemma HandleOtherKeeps(s: System, succeeds: bool)
    requires Inv(s) && s.requests != [] && !s.requests[0].Store?
    ensures Inv(OnHandle(s, succeeds))
  {
    hide Answers, Truthful, Kept, Awaited, StoredUpTo, Chosen;
    var r := OnHandle(s, succeeds);
    BehindLess(s.requests, s.marks, |s.results|);
    if s.requests[0].Close? {
      AwaitedHandled(s.writer, s.requests, s.replies, s.marks, []);
      assert s.replies + [] == s.replies;
    } else {
      var reply := r.replies[|s.replies|];
      assert r.replies == s.replies + [reply];
      if reply.Drained? {
        assert s.requests[..0] == [];
        assert s.marks[reply.id] == |s.results|;
        assert s.results[..|s.results|] == s.results;
        assert StoredUpTo(s.results, |s.results|) <==> AllTrue(s.results) by { AllStored(s.results); }
      }
      TruthfulMore(s.replies, s.marks, s.results, s.results, s.writer.failed, reply);
      AnswersAppend(s.replies, [reply]);
      OneAnswer(reply);
      AwaitedHandled(s.writer, s.requests, s.replies, s.marks, [reply]);
      if NoFailure(r.replies) {
        assert forall k :: 0 <= k < |s.replies| ==> s.replies[k] == r.replies[k];
      }
    }
  }

  lemma AllStored(results: seq<bool>)
    ensures StoredUpTo(results, |results|) <==> AllTrue(results)
  {
    assert results[..|results|] == results;
  }

  // ---------------------------------------------------------------- deliveries and the end

  lemma TruthfulLess(replies: seq<Reply>, marks: map<nat, nat>, results: seq<bool>, failed: bool, after: bool)
    requires replies != [] && Truthful(replies, marks, results, failed)
    requires after == (failed || replies[0].Failed?)
    ensures Truthful(replies[1..], marks, results, after)
  {
    var rest := replies[1..];
    forall k | 0 <= k < |rest| && rest[k].Drained?
      ensures rest[k].id in marks && marks[rest[k].id] <= |results|
      ensures after || !NoFailure(rest[..k]) || StoredUpTo(results, marks[rest[k].id])
    {
      assert replies[k + 1] == rest[k];
      assert replies[..k + 1] == [replies[0]] + rest[..k];
    }
  }

  lemma AnswersLess(replies: seq<Reply>)
    requires replies != []
    ensures Answers(replies) == Answers([replies[0]]) + Answers(replies[1..])
  {
    AnswersAppend([replies[0]], replies[1..]);
    assert replies == [replies[0]] + replies[1..];
  }

  lemma DeliverDrainedKeeps(s: System)
    requires Inv(s) && s.replies != [] && s.replies[0].Drained?
    ensures Inv(Step(s, Deliver))
  {
    hide Bundles, Answers, Chosen, Behind, StoredUpTo, Truthful;
    TruthfulLess(s.replies, s.marks, s.results, s.writer.failed, s.writer.failed);
    AnswersLess(s.replies);
    OneAnswer(s.replies[0]);
    FirstIsTruthful(s.replies, s.marks, s.results, s.writer.failed);
    assert s.replies == [s.replies[0]] + s.replies[1..];
  }

  lemma FirstIsTruthful(replies: seq<Reply>, marks: map<nat, nat>, results: seq<bool>, failed: bool)
    requires replies != [] && replies[0].Drained? && Truthful(replies, marks, results, failed)
    ensures replies[0].id in marks && (failed || StoredUpTo(results, marks[replies[0].id]))
  {
    assert replies[..0] == [];
  }

  lemma DeliverOtherKeeps(s: System)
    requires Inv(s) && s.replies != [] && !s.replies[0].Drained?
    ensures Inv(Step(s, Deliver))
  {
    hide Bundles, Answers, Chosen, Behind, StoredUpTo, Truthful, StillWaiting, AllTrue;
    var reply, rest := s.replies[0], s.replies[1..];
    TruthfulLess(s.replies, s.marks, s.results, s.writer.failed, s.writer.failed || reply.Failed?);
    AnswersLess(s.replies);
    OneAnswer(reply);
    assert s.replies == [reply] + rest;
    var w := Receive(s.writer, reply);
    assert w.failed == (s.writer.failed || reply.Failed?);
    assert Awaited(w, s.requests, rest, s.marks);
    assert NoFailure(rest) && !w.failed ==> NoFailure(s.replies);
    assert Kept(w.drains, s.marks, s.results, w.failed);
    assert Counted(w, s.requests, rest);
  }

  /** Failing all keeps everything: from then on the writer promises nothing. */
  lemma FailAllKeeps(s: System, w: Writer, running: bool)
    requires Inv(s) && w.failed && w.outstanding == 0 && w.drainWaiters == {} && w.belowWaiters == []
    requires w.nextDrainId == s.writer.nextDrainId && w.drains == FailAll(s.writer).drains && (w.exited ==> !running)
    ensures Inv(s.(writer := w, worker := s.worker.(running := running)))
  {
    hide Bundles, Answers, Chosen, Behind, StoredUpTo, NoFailure;
  }

  lemma EndKeeps(s: System, e: Event)
    requires Inv(s) && Enabled(s, e) && (e.WorkerError? || e.Stop? || e.Exit?)
    ensures Inv(Step(s, e))
  {
    hide Ordered, Honest, Behind, Truthful, Kept, Counted, Awaited;
    var r := Step(s, e);
    if e.Stop? || (e.Exit? && e.code == 0 && s.writer.drainWaiters == {} && s.writer.belowWaiters == []) {
      OnlyExited(s, r.writer, r.worker.running);
    } else {
      FailAllKeeps(s, r.writer, r.worker.running);
    }
  }

  lemma OnlyExited(s: System, w: Writer, running: bool)
    requires Inv(s) && (w == s.writer || w == s.writer.(exited := true)) && Served(w, running)
    ensures Inv(s.(writer := w, worker := s.worker.(running := running)))
  {
    hide Ordered, Honest, Behind, Truthful, Kept;
  }

  // ---------------------------------------------------------------- every run

  lemma StepKeeps(s: System, e: Event)
    requires Inv(s) && Enabled(s, e)
    ensures Inv(Step(s, e))
  {
    hide Inv, OnSend, OnDrain, OnHandle, Receive, OnError, OnExit;
    match e
    case Send(bundle) => SendKeeps(s, bundle);
    case WaitBelow(limit) => WaitKeeps(s, limit);
    case Drain => DrainKeeps(s);
    case Shut => if !s.writer.exited { Posted(s, Close); }
    case Handle(succeeds) =>
      if s.requests[0].Store? { HandleStoreKeeps(s, succeeds); } else { HandleOtherKeeps(s, succeeds); }
    case Deliver =>
      if s.replies[0].Drained? { DeliverDrainedKeeps(s); } else { DeliverOtherKeeps(s); }
    case _ => EndKeeps(s, e);
  }

  lemma WaitKeeps(s: System, limit: nat)
    requires Inv(s)
    ensures Inv(s.(writer := Waits(s.writer, limit)))
  {
    hide Ordered, Honest, Behind, Truthful, Kept;
  }

  ghost predicate Happens(s: System, e: Event, r: System) {
    Enabled(s, e) && r == Step(s, e)
  }

  /** The states between the events of a run. */
  ghost predicate Run(states: seq<System>, events: seq<Event>) {
    && |states| == |events| + 1 && states[0] == Initial()
    && (forall i :: 0 <= i < |events| ==> Happens(states[i], events[i], states[i + 1]))
  }

  lemma InitialKeeps()
    ensures Inv(Initial())
  {
    var s := Initial();
    assert s.requests[0] == Open && Bundles(s.requests) == [] by { assert s.requests[1..] == []; }
    assert Ordered(s.requests, s.worker.stored, s.sent, s.results);
    assert Counted(s.writer, s.requests, s.replies);
  }

  lemma {:induction false} RunKeeps(states: seq<System>, events: seq<Event>, j: nat)
    requires Run(states, events) && j < |states|
    ensures Inv(states[j])
  {
    if j == 0 {
      InitialKeeps();
    } else {
      RunKeeps(states, events, j - 1);
      hide Inv;
      assert Happens(states[j - 1], events[j - 1], states[j]);
      StepKeeps(states[j - 1], events[j - 1]);
    }
  }

  /**
   Bundles are stored in the order they were sent, whatever is interleaved: the stored
   ones are the bundles sent so far, less the failed ones and those still under way.
   A drain that resolves tells that every bundle sent before it is stored; one is
   rejected only after a failure.
   */
  lemma ResolvedDrainMeansStored(states: seq<System>, events: seq<Event>, j: nat)
    requires Run(states, events) && j < |states|
    ensures Honoured(states[j])
  {
    RunKeeps(states, events, j);
    DrainsAreHonoured(states[j]);
  }

  ghost predicate Honoured(s: System) {
    && |s.results| <= |s.sent| && s.worker.stored == Chosen(s.sent, s.results)
    && forall id :: id in s.writer.drains ==>
         if s.writer.drains[id] then id in s.marks && s.marks[id] <= |s.sent| &&
             s.sent[..s.marks[id]] <= s.worker.stored
         else s.writer.failed
  }

  lemma DrainsAreHonoured(s: System)
    requires Inv(s)
    ensures Honoured(s)
  {
    hide Behind, Truthful, Awaited, Counted, Served, Honest, Chosen;
    forall id | id in s.writer.drains && s.writer.drains[id] ensures s.sent[..s.marks[id]] <= s.worker.stored {
      ChosenPrefix(s.sent, s.results, s.marks[id]);
    }
  }

  lemma {:induction false} ChosenLength(sent: seq<Bundle>, results: seq<bool>)
    requires |results| <= |sent|
    ensures |Chosen(sent, results)| <= |results|
  {
    if results != [] {
      ChosenLength(sent, results[..|results| - 1]);
    }
  }

  /** Once a drain resolves and nothing was sent after it, exactly what was sent is stored, in that order. */
  lemma FreshIndexIsComplete(s: System, id: nat)
    requires Inv(s) && id in s.writer.drains && s.writer.drains[id] && id in s.marks && s.marks[id] == |s.sent|
    ensures s.worker.stored == s.sent
  {
    DrainsAreHonoured(s);
    hide Chosen;
    ChosenLength(s.sent, s.results);
    assert s.sent[..|s.sent|] == s.sent;
  }

  /** A drain asked for after `n` bundles were sent remembers just that, ever after. */
  lemma DrainMarksItsPlace(s: System, e: Event)
    requires Inv(s) && Enabled(s, e)
    ensures var r := Step(s, e);
            && (forall id :: id in s.marks ==> id in r.marks && r.marks[id] == s.marks[id])
            && s.sent <= r.sent
            && (e.Drain? && Accepts(s.writer) ==>
                s.writer.nextDrainId !in s.marks && r.marks == s.marks[s.writer.nextDrainId := |s.sent|])
  {
    hide Ordered, Honest, Behind, Truthful, Kept, Counted, Served;
  }

  lemma FailureSpoils(results: seq<bool>, m: nat, k: nat)
    requires k < m && k < |results| && !results[k]
    ensures !StoredUpTo(results, m)
  {
    if m <= |results| {
      assert results[..m][k] == results[k];
    }
  }

  /** A failure among the bundles sent before a drain keeps that drain from ever resolving. */
  lemma FailureRejects(states: seq<System>, events: seq<Event>, j: nat, id: nat, k: nat)
    requires Run(states, events) && j < |states|
    requires id in states[j].marks && k < states[j].marks[id] && k < |states[j].results| && !states[j].results[k]
    ensures id in states[j].writer.drains ==> !states[j].writer.drains[id]
  {
    RunKeeps(states, events, j);
    hide Ordered, Behind, Truthful, Awaited, Counted, Served, Honest, StoredUpTo;
    FailureSpoils(states[j].results, states[j].marks[id], k);
  }

  // ---------------------------------------------------------------- the window

  /** The admission loop: each bundle sent is followed by a wait, and the next is sent once that is over. */
  function Admit(s: System, bundle: Bundle, window: nat): System {
    var r := OnSend(s, bundle);
    r.(writer := Waits(r.writer, window))
  }

  function UnderWay(s: System): nat {
    |Bundles(s.requests)| + Answers(s.replies)
  }

  ghost predicate Windowed(s: System, window: nat) {
    UnderWay(s) <= window && (s.writer.belowWaiters == [] && Accepts(s.writer) ==> s.writer.outstanding < window)
  }

  lemma UnderWayShrinks(s: System, e: Event)
    requires Enabled(s, e) && !e.Send?
    ensures UnderWay(Step(s, e)) <= UnderWay(s)
  {
    match e
    case Drain => BundlesAppend(s.requests, [DrainUpTo(s.writer.nextDrainId)]);
    case Shut => BundlesAppend(s.requests, [Close]);
    case Handle(succeeds) =>
      if !s.requests[0].Close? {
        var r := OnHandle(s, succeeds);
        var reply := r.replies[|s.replies|];
        AnswersAppend(s.replies, [reply]);
        OneAnswer(reply);
      }
    case Deliver => AnswersLess(s.replies);
    case _ =>
  }

  /** The one who sends is the only one who waits, and always for the same window. */
  ghost predicate OneWindow(w: Writer, window: nat) {
    forall limit :: limit in w.belowWaiters ==> limit == window
  }

  lemma AdmitKeepsWindow(s: System, bundle: Bundle, window: nat)
    requires Inv(s) && Windowed(s, window) && s.writer.belowWaiters == []
    ensures var r := Admit(s, bundle, window); Inv(r) && Windowed(r, window) && OneWindow(r.writer, window)
  {
    SendKeeps(s, bundle);
    WaitKeeps(OnSend(s, bundle), window);
    hide Ordered, Honest, Behind, Truthful, Kept, Awaited;
    BundlesAppend(s.requests, [Store(bundle)]);
    assert Bundles([Store(bundle)]) == [bundle];
  }

  lemma DeliverKeepsWindow(s: System, window: nat)
    requires Served(s.writer, s.worker.running) && s.replies != []
    requires s.writer.belowWaiters == [] && Accepts(s.writer) ==> s.writer.outstanding < window
    requires OneWindow(s.writer, window)
    ensures var v := Receive(s.writer, s.replies[0]);
        OneWindow(v, window) && (v.belowWaiters == [] && Accepts(v) ==> v.outstanding < window)
  {
    hide StillWaiting;
    var w, v := s.writer, Receive(s.writer, s.replies[0]);
    if v.belowWaiters != w.belowWaiters && w.belowWaiters != [] && v.belowWaiters == [] {
      assert w.belowWaiters[0] in w.belowWaiters && window !in StillWaiting(w.belowWaiters, v.outstanding);
    }
  }

  lemma StepKeepsWindow(s: System, e: Event, window: nat)
    requires Inv(s) && Windowed(s, window) && OneWindow(s.writer, window) && Enabled(s, e) && !e.Send? && !e.WaitBelow?
    ensures var r := Step(s, e); Inv(r) && Windowed(r, window) && OneWindow(r.writer, window)
  {
    StepKeeps(s, e);
    UnderWayShrinks(s, e);
    hide Ordered, Honest, Behind, Truthful, Kept, Awaited, Counted, StillWaiting, SettleOne, Bundles, Answers;
    if e.Deliver? {
      DeliverKeepsWindow(s, window);
    }
  }

  /** What happens while bundles are admitted: the loop sends the next one, or anything else. */
  datatype Move = Next(bundle: Bundle) | Other(e: Event)

  ghost predicate Moves(s: System, m: Move, r: System, window: nat) {
    match m
    case Next(bundle) => s.writer.belowWaiters == [] && Accepts(s.writer) && r == Admit(s, bundle, window)
    case Other(e) => Enabled(s, e) && !e.Send? && !e.WaitBelow? && r == Step(s, e)
  }

  /** Throughout the admission loop at most the window's number of bundles are under way. */
  lemma {:induction false} WindowHolds(states: seq<System>, moves: seq<Move>, window: nat, j: nat)
    requires window >= 1 && |states| == |moves| + 1 && states[0] == Initial() && j < |states|
    requires forall i :: 0 <= i < |moves| ==> Moves(states[i], moves[i], states[i + 1], window)
    ensures UnderWay(states[j]) <= window && Inv(states[j]) && Windowed(states[j], window) &&
        OneWindow(states[j].writer, window)
  {
    if j == 0 {
      InitialKeeps();
    } else {
      hide Inv, Windowed;
      WindowHolds(states, moves, window, j - 1);
      assert Moves(states[j - 1], moves[j - 1], states[j], window);
      match moves[j - 1]
      case Next(bundle) => AdmitKeepsWindow(states[j - 1], bundle, window);
      case Other(e) => StepKeepsWindow(states[j - 1], e, window);
      assert UnderWay(states[j]) <= window by { WindowedBounds(states[j], window); }
    }
  }

  lemma WindowedBounds(s: System, window: nat)
    requires Windowed(s, window)
    ensures UnderWay(s) <= window
  {
  }

  // ---------------------------------------------------------------- nobody waits for ever

  /** Steps that need no call by the main thread. */
  predicate Spontaneous(e: Event) {
    e.Handle? || e.Deliver? || e.WorkerError? || e.Stop? || e.Exit?
  }

  function Remaining(s: System): nat {
    2 * |s.requests| + |s.replies| + (if s.worker.running then 1 else 0) + (if s.writer.exited then 0 else 1)
  }

  /** Left to themselves the worker and the channels come to rest. */
  lemma SpontaneousStepsEnd(s: System, e: Event)
    requires Enabled(s, e) && Spontaneous(e)
    ensures Remaining(Step(s, e)) < Remaining(s)
  {
  }

  predicate AtRest(s: System) {
    !(s.worker.running && s.requests != []) && s.replies == [] && (s.worker.running || s.writer.exited)
  }

  /** Once at rest every drain is settled, and nobody waits for fewer than one or more bundles under way. */
  lemma RestLeavesNoWaiter(s: System)
    requires Inv(s) && AtRest(s)
    ensures s.writer.drainWaiters == {}
    ensures forall limit :: limit in s.writer.belowWaiters ==> limit == 0
  {
    hide Ordered, Honest, Behind, Truthful, Kept;
  }

  lemma RestMeansNothingEnabled(s: System)
    ensures AtRest(s) <==> forall e :: Spontaneous(e) && !e.Stop? && !e.WorkerError? ==> !Enabled(s, e)
  {
    if !AtRest(s) {
      assert Enabled(s, Deliver) || Enabled(s, Handle(true)) || Enabled(s, Exit(0));
    }
  }

  /** After the worker's exit no waiter is left, and none can arise. */
  lemma ExitLeavesNoWaiter(s: System, e: Event)
    requires Inv(s) && s.writer.exited && Enabled(s, e)
    ensures s.writer.drainWaiters == {} && s.writer.belowWaiters == []
    ensures Step(s, e).writer.exited && Step(s, e).writer.drainWaiters == {} && Step(s, e).writer.belowWaiters == []
  {
    StepKeeps(s, e);
    hide Ordered, Honest, Behind, Truthful, Kept, Awaited, Counted;
  }

  /** What settles the promise that the worker is ready: the message that it is, an error, or an exit with a code. */
  predicate SettlesReady(s: System, e: Event) {
    e.WorkerError? || (e.Exit? && e.code != 0) || (e.Deliver? && s.replies != [] && s.replies[0] == Ready)
  }

  /** The promise is pending exactly as long as nothing of this happened. */
  lemma {:induction false} ReadyIsPendingUntilSettled(states: seq<System>, events: seq<Event>, j: nat)
    requires Run(states, events) && j < |states|
    ensures states[j].writer.ready == Pending <==> forall i :: 0 <= i < j ==> !SettlesReady(states[i], events[i])
  {
    if j > 0 {
      ReadyIsPendingUntilSettled(states, events, j - 1);
      assert Happens(states[j - 1], events[j - 1], states[j]);
      hide Run;
    }
  }

  /**
   The promise that the worker is ready is not covered by this: when the database cannot
   be opened and the worker is then closed in order, it is never settled.
   */
  lemma ReadyMayNeverSettle()
    ensures exists states: seq<System>, events: seq<Event> ::
              Run(states, events) && AtRest(states[|events|]) && states[|events|].writer.exited &&
                  states[|events|].writer.ready == Pending
  {
    var w := Writer(false, false, 0, 0, {}, [], Pending, map[]);
    var failed := w.(failed := true);
    var up, down := Worker(true, false, []), Worker(false, false, []);
    var states := [
      Initial(),
      System(w, [], up, [Failed(false)], [], [], map[]),
      System(failed, [], up, [], [], [], map[]),
      System(failed, [Close], up, [], [], [], map[]),
      System(failed, [], down, [], [], [], map[]),
      System(failed.(exited := true), [], down, [], [], [], map[])];
    var events := [Handle(false), Deliver, Shut, Handle(true), Exit(0)];
    assert Happens(states[0], events[0], states[1]);
    assert Happens(states[1], events[1], states[2]);
    assert Happens(states[2], events[2], states[3]);
    assert Happens(states[3], events[3], states[4]);
    assert Happens(states[4], events[4], states[5]);
    hide Happens, Step;
    assert Run(states, events);
  }
}
