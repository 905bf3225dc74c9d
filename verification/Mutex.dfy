/**
 The mutex of `withLock`. A release wakes the first waiter, but it runs only later, and
 any caller may take the lock in between; the woken waiter then queues again.
 */
module Mutexes {
  type Task = nat

  /** What a task is doing about the lock. */
  datatype Phase = Outside | Queued | Woken | Holding

  /** `phases` is what each task is doing; the mutex itself has only the first two fields. */
  datatype State = State(locked: bool, waitQueue: seq<Task>, phases: map<Task, Phase>)

  function PhaseOf(s: State, t: Task): Phase {
    if t in s.phases then s.phases[t] else Outside
  }

  /** A task calls `withLock`, a woken task runs on, or the holder is done. */
  datatype Event = Acquire(t: Task) | Resume(t: Task) | Release(t: Task)

  predicate Enabled(s: State, e: Event) {
    match e
    case Acquire(t) => PhaseOf(s, t) == Outside
    case Resume(t) => PhaseOf(s, t) == Woken
    case Release(t) => PhaseOf(s, t) == Holding
  }

  /** The loop in `acquire`: take the lock if it is free, else queue. */
  function Contend(s: State, t: Task): State {
    if s.locked then s.(waitQueue := s.waitQueue + [t], phases := s.phases[t := Queued])
    else s.(locked := true, phases := s.phases[t := Holding])
  }

  function Released(s: State, t: Task): State {
    var free := s.(locked := false, phases := s.phases[t := Outside]);
    if s.waitQueue == [] then free
    else free.(waitQueue := s.waitQueue[1..], phases := free.phases[s.waitQueue[0] := Woken])
  }

  function Step(s: State, e: Event): State {
    match e
    case Acquire(t) => Contend(s, t)
    case Resume(t) => Contend(s, t)
    case Release(t) => Released(s, t)
  }

  ghost predicate Inv(s: State) {
    && (forall t, u :: PhaseOf(s, t) == Holding && PhaseOf(s, u) == Holding ==> t == u)
    && (s.locked <==> exists t :: PhaseOf(s, t) == Holding)
    && (forall t :: t in s.waitQueue <==> PhaseOf(s, t) == Queued)
    && (forall i, j :: 0 <= i < j < |s.waitQueue| ==> s.waitQueue[i] != s.waitQueue[j])
    && (s.waitQueue != [] ==> s.locked || exists t :: PhaseOf(s, t) == Woken)
  }

  lemma ContendKeeps(s: State, t: Task)
    requires Inv(s) && (PhaseOf(s, t) == Outside || PhaseOf(s, t) == Woken)
    ensures Inv(Contend(s, t))
  {
    var r := Contend(s, t);
    assert forall u :: PhaseOf(r, u) == if u == t then (if s.locked then Queued else Holding) else PhaseOf(s, u);
    if s.locked {
      assert t !in s.waitQueue;
      var h :| PhaseOf(s, h) == Holding;
      assert PhaseOf(r, h) == Holding;
    } else {
      assert PhaseOf(r, t) == Holding;
    }
  }

  lemma ReleaseKeeps(s: State, t: Task)
    requires Inv(s) && PhaseOf(s, t) == Holding
    ensures Inv(Released(s, t))
  {
    var r := Released(s, t);
    assert t !in s.waitQueue;
    if s.waitQueue == [] {
      assert forall u :: PhaseOf(r, u) == if u == t then Outside else PhaseOf(s, u);
    } else {
      var w, rest := s.waitQueue[0], s.waitQueue[1..];
      assert w in s.waitQueue && s.waitQueue == [w] + rest;
      assert forall u :: PhaseOf(r, u) == if u == t then Outside else if u == w then Woken else PhaseOf(s, u);
      assert PhaseOf(r, w) == Woken;
    }
  }

  ghost predicate Happens(s: State, e: Event, r: State) {
    Enabled(s, e) && r == Step(s, e)
  }

  /**
   Whatever order tasks run in, at most one holds the lock, the flag says whether one
   does, and while somebody waits the lock is held or a wake-up is on its way.
   */
  lemma {:induction false} RunIsSafe(states: seq<State>, events: seq<Event>, j: nat)
    requires |states| == |events| + 1 && states[0] == State(false, [], map[]) && j < |states|
    requires forall i :: 0 <= i < |events| ==> Happens(states[i], events[i], states[i + 1])
    ensures Inv(states[j])
  {
    if j > 0 {
      RunIsSafe(states, events, j - 1);
      assert Happens(states[j - 1], events[j - 1], states[j]);
      hide Inv, Contend, Released;
      match events[j - 1]
      case Acquire(t) => ContendKeeps(states[j - 1], t);
      case Resume(t) => ContendKeeps(states[j - 1], t);
      case Release(t) => ReleaseKeeps(states[j - 1], t);
    }
  }

  /** A state in which no task can go on by itself has no waiter. */
  lemma NobodyIsStuck(s: State)
    requires Inv(s) && forall t :: PhaseOf(s, t) != Woken && PhaseOf(s, t) != Holding
    ensures s.waitQueue == [] && forall t :: PhaseOf(s, t) == Outside
  {
  }

  // ---------------------------------------------------------------- first come, first woken

  /** `a` waits, and `b` does not wait or waits behind it. */
  ghost predicate Ahead(s: State, a: Task, b: Task) {
    exists i :: 0 <= i < |s.waitQueue| && s.waitQueue[i] == a && b !in s.waitQueue[..i]
  }

  lemma AheadStays(s: State, e: Event, a: Task, b: Task)
    requires Inv(s) && Enabled(s, e) && Ahead(s, a, b) && a != b
    ensures PhaseOf(Step(s, e), a) == Queued ==> Ahead(Step(s, e), a, b)
    ensures !(PhaseOf(s, b) == Queued && PhaseOf(Step(s, e), b) == Woken)
  {
    var i :| 0 <= i < |s.waitQueue| && s.waitQueue[i] == a && b !in s.waitQueue[..i];
    var r := Step(s, e);
    assert a in s.waitQueue;
    if e.Release? {
      if i > 0 {
        assert r.waitQueue[i - 1] == a && r.waitQueue[..i - 1] == s.waitQueue[..i][1..];
        assert s.waitQueue[..i][0] == s.waitQueue[0];
      }
    } else if s.locked {
      assert r.waitQueue[i] == a && r.waitQueue[..i] == s.waitQueue[..i];
    }
  }

  lemma LaterIsBehind(s: State, a: Task, b: Task)
    requires Inv(s) && PhaseOf(s, a) == Queued && PhaseOf(s, b) != Queued
    ensures Ahead(s, a, b)
  {
    assert a in s.waitQueue && b !in s.waitQueue;
    var i :| 0 <= i < |s.waitQueue| && s.waitQueue[i] == a;
    assert forall x :: x in s.waitQueue[..i] ==> x in s.waitQueue;
  }

  /** While a task waits, none that began to wait after it is woken. */
  lemma {:induction false} FirstComeFirstWoken(states: seq<State>, events: seq<Event>, i: nat, n: nat, a: Task, b: Task)
    requires |states| == |events| + 1 && states[0] == State(false, [], map[]) && i <= n < |events|
    requires forall k :: 0 <= k < |events| ==> Happens(states[k], events[k], states[k + 1])
    requires PhaseOf(states[i], b) != Queued && forall k :: i <= k <= n ==> PhaseOf(states[k], a) == Queued
    ensures Ahead(states[n], a, b)
    ensures !(PhaseOf(states[n], b) == Queued && PhaseOf(states[n + 1], b) == Woken)
    decreases n
  {
    hide Inv, Ahead, Step;
    RunIsSafe(states, events, n);
    assert a != b;
    if n == i {
      LaterIsBehind(states[i], a, b);
    } else {
      FirstComeFirstWoken(states, events, i, n - 1, a, b);
      RunIsSafe(states, events, n - 1);
      assert Happens(states[n - 1], events[n - 1], states[n]);
      AheadStays(states[n - 1], events[n - 1], a, b);
    }
    assert Happens(states[n], events[n], states[n + 1]);
    AheadStays(states[n], events[n], a, b);
  }

  // ---------------------------------------------------------------- the mutex as an object

  class Mutex {
    var locked: bool
    var waitQueue: seq<Task>
    ghost var phases: map<Task, Phase>

    ghost function Contents(): State
      reads this
    {
      State(locked, waitQueue, phases)
    }

    constructor ()
      ensures Contents() == State(false, [], map[])
    {
      locked, waitQueue, phases := false, [], map[];
    }

    /** One round of the loop in `acquire`, by a task that calls or was woken. */
    method TryAcquire(t: Task) returns (acquired: bool)
      modifies this
      ensures Contents() == Contend(old(Contents()), t) && acquired == !old(locked)
    {
      if locked {
        waitQueue := waitQueue + [t];
        phases := phases[t := Queued];
        return false;
      }
      locked := true;
      phases := phases[t := Holding];
      return true;
    }

    /** The function returned by `acquire`; `woken` is who runs on next, if anyone. */
    method Release(t: Task) returns (woken: seq<Task>)
      modifies this
      ensures Contents() == Released(old(Contents()), t)
      ensures woken == if old(waitQueue) == [] then [] else [old(waitQueue)[0]]
    {
      locked := false;
      phases := phases[t := Outside];
      if waitQueue == [] {
        return [];
      }
      woken := [waitQueue[0]];
      phases := phases[waitQueue[0] := Woken];
      waitQueue := waitQueue[1..];
    }
  }
}
