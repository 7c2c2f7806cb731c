/** Trips of the circuit breaker that a success came too late for: a worker that read the counter before
    the success zeroed it can still write OPEN afterwards (erp_core/orchestrator.py). */
module BreakerLateTrips {
  import opened CircuitBreaker
  import opened BreakerInterleaving
  import opened BreakerCounting
  import opened BreakerRuns
  import opened BreakerProbes

  /** The worker has read the counter and has not yet finished recording its failure. */
  predicate Recording(p: Point) { p.WriteFailures? || p.WriteLastFail? || p.MaybeTrip? }

  function ChainOf(p: Point): seq<nat>
    requires Recording(p)
  {
    match p
    case WriteFailures(_, chain) => chain
    case WriteLastFail(_, chain) => chain
    case MaybeTrip(_, chain) => chain
  }

  predicate AllRead(t: Trail, chain: seq<nat>) { forall i :: 0 <= i < |chain| ==> chain[i] in t.readAt }

  /** A recording worker's chain ends with its own call; all of it has read the counter. */
  predicate Owns(t: Trail, w: Worker) {
    Recording(w.at) ==>
      var chain := ChainOf(w.at);
      chain != [] && chain[|chain| - 1] == w.call && AllRead(t, chain)
  }

  predicate AllOwn(s: System) {
    AllRead(s.trail, s.trail.chain) && forall v :: v in s.workers ==> Owns(s.trail, s.workers[v])
  }

  lemma OwnStep(c: Config, s: System, e: Event)
    requires AllOwn(s)
    ensures AllOwn(Step(c, s, e))
    ensures s.trail.readAt.Keys <= Step(c, s, e).trail.readAt.Keys
  {
    var s' := Step(c, s, e);
    forall v | v in s'.workers ensures Owns(s'.trail, s'.workers[v]) {
      if v in s.workers { assert Owns(s.trail, s.workers[v]); }
    }
  }

  /** At the reset, the call has read the counter and has yet to store its count, or it has stored it and
      is about to trip. */
  ghost predicate Straddles(c: Config, reset: System, call: nat) {
    exists v :: v in reset.workers && reset.workers[v].call == call && Holding(c, reset.workers[v].at)
  }

  predicate Holding(c: Config, p: Point) {
    p.WriteFailures? || (p.WriteLastFail? && p.n >= c.threshold) || (p.MaybeTrip? && p.n >= c.threshold)
  }

  /** Some call of the chain counted before the reset. */
  predicate Stale(reset: System, chain: seq<nat>) {
    exists i :: 0 <= i < |chain| && chain[i] in reset.trail.readAt
  }

  ghost predicate Straddled(c: Config, reset: System, chain: seq<nat>) {
    exists i :: 0 <= i < |chain| && Straddles(c, reset, chain[i])
  }

  /** A worker that read before the reset counts only calls that did so too. */
  predicate OldCount(reset: System, w: Worker) {
    Recording(w.at) && w.call in reset.trail.readAt ==> AllRead(reset.trail, ChainOf(w.at))
  }

  ghost predicate Explained(c: Config, reset: System, chain: seq<nat>) {
    Stale(reset, chain) ==> Straddled(c, reset, chain)
  }

  /** Since the reset, every count that can still matter is fresh or goes back to a straddling call. */
  ghost predicate SinceReset(c: Config, reset: System, s: System) {
    && reset.trail.readAt.Keys <= s.trail.readAt.Keys
    && Explained(c, reset, s.trail.chain)
    && (forall v :: v in s.workers && Holding(c, s.workers[v].at) ==> Explained(c, reset, ChainOf(s.workers[v].at)))
    && (forall v :: v in s.workers ==> OldCount(reset, s.workers[v]))
  }

  lemma AtReset(c: Config, reset: System)
    requires AllOwn(reset) && reset.trail.chain == []
    ensures SinceReset(c, reset, reset)
  {
    forall v | v in reset.workers && Holding(c, reset.workers[v].at)
      ensures Explained(c, reset, ChainOf(reset.workers[v].at))
    {
      var chain := ChainOf(reset.workers[v].at);
      assert Owns(reset.trail, reset.workers[v]);
      assert Straddles(c, reset, chain[|chain| - 1]);
    }
    forall v | v in reset.workers ensures OldCount(reset, reset.workers[v]) {
      assert Owns(reset.trail, reset.workers[v]);
    }
  }

  lemma ExplainedMore(c: Config, reset: System, chain: seq<nat>, call: nat)
    requires Explained(c, reset, chain) && call !in reset.trail.readAt
    ensures Explained(c, reset, chain + [call])
  {
    var more := chain + [call];
    if Stale(reset, more) {
      var i :| 0 <= i < |more| && more[i] in reset.trail.readAt;
      assert chain[i] in reset.trail.readAt;
      var j :| 0 <= j < |chain| && Straddles(c, reset, chain[j]);
      assert Straddles(c, reset, more[j]);
    }
  }

  lemma SinceResetStep(c: Config, reset: System, s: System, e: Event)
    requires Inv(c, s) && SinceReset(c, reset, s) && !Zeroes(s, e)
    ensures SinceReset(c, reset, Step(c, s, e))
  {
    var s' := Step(c, s, e);
    if e.worker in s.workers {
      var w := s.workers[e.worker];
      if w.at == ReadFailures {
        assert WorkerOk(s.trail, w);
        ExplainedMore(c, reset, LiveChain(s, s.clock + e.wait), w.call);
      }
      forall v | v in s'.workers && Holding(c, s'.workers[v].at)
        ensures Explained(c, reset, ChainOf(s'.workers[v].at))
      {
        if v != e.worker { assert s'.workers[v] == s.workers[v]; }
      }
      forall v | v in s'.workers ensures OldCount(reset, s'.workers[v]) {
        if v in s.workers { assert OldCount(reset, s.workers[v]); }
      }
    }
  }

  lemma OwnFrom(c: Config, s: System, s': System)
    requires AllOwn(s) && Leads(c, s, s', false)
    ensures AllOwn(s')
  {
    var events :| RunFrom(c, s, events) == s' && NoReset(c, s, events);
    OwnRun(c, s, events);
  }

  lemma {:induction false} OwnRun(c: Config, s: System, events: seq<Event>)
    requires AllOwn(s)
    ensures AllOwn(RunFrom(c, s, events))
  {
    if events != [] {
      OwnRun(c, s, events[..|events| - 1]);
      OwnStep(c, RunFrom(c, s, events[..|events| - 1]), events[|events| - 1]);
    }
  }

  lemma InvFrom(c: Config, s: System, events: seq<Event>)
    requires Inv(c, s)
    ensures Inv(c, RunFrom(c, s, events))
  {
    if events != [] {
      InvFrom(c, s, events[..|events| - 1]);
      InvKept(c, RunFrom(c, s, events[..|events| - 1]), events[|events| - 1]);
    }
  }

  lemma {:induction false} SinceResetRun(c: Config, reset: System, events: seq<Event>)
    requires Inv(c, reset) && AllOwn(reset) && reset.trail.chain == [] && NoReset(c, reset, events)
    ensures SinceReset(c, reset, RunFrom(c, reset, events))
  {
    if events == [] {
      AtReset(c, reset);
    } else {
      SinceResetRun(c, reset, events[..|events| - 1]);
      InvFrom(c, reset, events[..|events| - 1]);
      SinceResetStep(c, reset, RunFrom(c, reset, events[..|events| - 1]), events[|events| - 1]);
    }
  }

  /** The state right after a success has been recorded. */
  ghost predicate JustReset(c: Config, reset: System) {
    exists events, e :: Zeroes(Run(c, events), e) && reset == Step(c, Run(c, events), e)
  }

  lemma ResetFacts(c: Config, reset: System)
    requires JustReset(c, reset)
    ensures Inv(c, reset) && AllOwn(reset) && reset.trail.chain == []
  {
    var events, e :| Zeroes(Run(c, events), e) && reset == Step(c, Run(c, events), e);
    RunKeepsInv(c, events);
    InvKept(c, Run(c, events), e);
    OwnRun(c, START, events);
    OwnStep(c, Run(c, events), e);
  }

  /** The worker is about to write OPEN. */
  predicate AboutToTrip(c: Config, s: System, w: nat) {
    w in s.workers && s.workers[w].at.MaybeTrip? && s.workers[w].at.n >= c.threshold
  }

  /** Exactly when a trip counts a failure from before the last success: some call of its chain was in
      the middle of recording its failure at the reset.  Otherwise all its failures, of which there are at
      least `threshold`, were counted after the reset.  And all of them are from before the reset if and
      only if the tripping worker itself read the counter before it. */
  lemma LateTripExact(c: Config, reset: System, s: System, w: nat)
    requires JustReset(c, reset) && Leads(c, reset, s, false) && AboutToTrip(c, s, w)
    ensures Stale(reset, s.workers[w].at.chain) <==> Straddled(c, reset, s.workers[w].at.chain)
    ensures AllRead(reset.trail, s.workers[w].at.chain) <==> s.workers[w].call in reset.trail.readAt
    ensures Witnesses(s.trail, s.workers[w].at.n, s.workers[w].at.chain)
  {
    ResetFacts(c, reset);
    OwnFrom(c, reset, s);
    assert Owns(s.trail, s.workers[w]);
    var events :| RunFrom(c, reset, events) == s && NoReset(c, reset, events);
    SinceResetRun(c, reset, events);
    InvFrom(c, reset, events);
    assert WorkerOk(s.trail, s.workers[w]);
    var chain := s.workers[w].at.chain;
    if i :| 0 <= i < |chain| && Straddles(c, reset, chain[i]) {
      var v :| v in reset.workers && reset.workers[v].call == chain[i] && Holding(c, reset.workers[v].at);
      assert Owns(reset.trail, reset.workers[v]);
    }
  }

  /** Four steps of a new worker whose function succeeds: up to zeroing the counter. */
  lemma AlmostSucceed(c: Config, from: System, s: System, w: nat) returns (s': System)
    requires Leads(c, from, s, true) && w !in s.workers && Get(s.keys.state, s.clock, Closed) != Open
    ensures Leads(c, from, s', true)
    ensures s' == System(s.keys.(state := Stored(Closed, Forever)), s.clock,
                         s.workers[w := Worker(s.nextCall, WriteZero)], s.nextCall + 1, s.trail)
  {
    var go := Event(w, 0, Success);
    s' := Begin(c, from, s, true, w);
    StepLeads(c, from, s', true, go);
    s' := Step(c, s', go);
    StepLeads(c, from, s', true, go);
    s' := Step(c, s', go);
    assert s'.workers == s.workers[w := Worker(s.nextCall, WriteZero)];
  }

  /** And the fifth. */
  lemma Succeed(c: Config, s: System, w: nat) returns (s': System)
    requires Leads(c, START, s, true) && w !in s.workers && Get(s.keys.state, s.clock, Closed) != Open
    ensures JustReset(c, s')
    ensures s' == System(AfterSuccess(s.keys), s.clock, s.workers, s.nextCall + 1, s.trail.(chain := []))
  {
    var before := AlmostSucceed(c, START, s, w);
    s' := Step(c, before, Event(w, 0, Success));
    assert s'.workers == s.workers;
    var events :| RunFrom(c, START, events) == before;
    assert Zeroes(Run(c, events), Event(w, 0, Success));
  }

  /** A run with a straddling call: the breaker goes from the CLOSED of a success to OPEN without any new
      failure. */
  lemma LateTrip() returns (reset: System, s: System)
    ensures JustReset(Config(2, 60), reset) && Leads(Config(2, 60), reset, s, false)
    ensures reset.keys.state == Stored(Closed, Forever) && reset.keys.failures == Stored(0, Forever)
    ensures s.keys.state == Stored(Open, Forever) && s.trail.failed == reset.trail.failed
  {
    var c := Config(2, 60);
    LeadsHere(c, START, true);
    s := FailAndRead(c, START, START, true, 1);
    s := StoreAndTrip(c, START, s, true, 1);
    s := FailAndRead(c, START, s, true, 2);
    reset := Succeed(c, s, 3);
    LeadsHere(c, reset, false);
    s := StoreAndTrip(c, reset, reset, false, 2);
  }

  /** A call that failed before the success but reads the counter after it is a fresh failure: with a
      threshold of one it trips although no function has failed since. */
  lemma LateRead() returns (reset: System, s: System)
    ensures JustReset(Config(1, 60), reset) && Leads(Config(1, 60), reset, s, false)
    ensures s.trail.failed == reset.trail.failed && AboutToTrip(Config(1, 60), s, 1)
    ensures s.workers[1].call !in reset.trail.readAt && !Stale(reset, s.workers[1].at.chain)
  {
    var c, go := Config(1, 60), Event(1, 0, Failure);
    LeadsHere(c, START, true);
    s := Fail(c, START, START, true, 1);
    reset := Succeed(c, s, 2);
    LeadsHere(c, reset, false);
    StepLeads(c, reset, reset, false, go);
    s := Step(c, reset, go);
    s := Store(c, reset, s, false, 1);
  }

  ghost predicate LateTripAhead(c: Config, reset: System) {
    exists s, w :: Leads(c, reset, s, false) && AboutToTrip(c, s, w) && Stale(reset, s.workers[w].at.chain)
  }

  lemma TripAhead(c: Config, reset: System, s: System, w: nat)
    requires Leads(c, reset, s, false) && AboutToTrip(c, s, w) && Stale(reset, s.workers[w].at.chain)
    ensures LateTripAhead(c, reset)
  {
  }

  /** The worker stores its stale count, and further failures bring it up to the threshold. */
  lemma {:induction false} Escalate(c: Config, reset: System, s: System, v: nat)
    requires Leads(c, reset, s, false) && Get(s.keys.state, s.clock, Closed) != Open
    requires v in s.workers && s.workers[v].at.WriteFailures? && Stale(reset, s.workers[v].at.chain)
    ensures LateTripAhead(c, reset)
    decreases c.threshold - s.workers[v].at.n
  {
    var n, chain := s.workers[v].at.n, s.workers[v].at.chain;
    if n >= c.threshold {
      var last := Store(c, reset, s, false, v);
      TripAhead(c, reset, last, v);
    } else {
      var s1 := StoreAndTrip(c, reset, s, false, v);
      var s2 := FailAndRead(c, reset, s1, false, v);
      var more := s2.workers[v].at.chain;
      assert more == chain + [s1.nextCall];
      var i :| 0 <= i < |chain| && chain[i] in reset.trail.readAt;
      assert more[i] in reset.trail.readAt;
      Escalate(c, reset, s2, v);
    }
  }

  lemma {:induction false} AboveAll(used: set<nat>) returns (id: nat)
    ensures forall x :: x in used ==> x < id
    decreases |used|
  {
    if used == {} {
      id := 0;
    } else {
      var x :| x in used;
      var above := AboveAll(used - {x});
      id := if above <= x then x + 1 else above;
      forall y | y in used ensures y < id {
        if y != x { assert y in used - {x}; }
      }
    }
  }

  lemma ResetStamp(c: Config, reset: System)
    requires JustReset(c, reset)
    ensures 0 <= reset.clock && Expired(c, reset.keys, reset.clock + if c.recovery < 0 then 0 else c.recovery)
  {
    var events, e :| Zeroes(Run(c, events), e) && reset == Step(c, Run(c, events), e);
    var all := events + [e];
    assert all[..|events|] == events && all[..|all|] == all;
    StampSane(c, all, |all|);
  }

  /** When another worker has opened the circuit in the meantime, somebody waits for the timeout and writes
      HALF_OPEN; the recording worker stays where it is. */
  lemma MakeAvailable(c: Config, reset: System) returns (s: System)
    requires JustReset(c, reset)
    ensures Leads(c, reset, s, false) && Get(s.keys.state, s.clock, Closed) != Open
    ensures forall v :: v in reset.workers ==> v in s.workers && s.workers[v] == reset.workers[v]
  {
    LeadsHere(c, reset, false);
    var wait := if c.recovery < 0 then 0 else c.recovery;
    if Get(reset.keys.state, reset.clock, Closed) != Open {
      s := reset;
    } else if Get(reset.keys.state, reset.clock + wait, Closed) != Open {
      var p := AboveAll(reset.workers.Keys);
      StepLeads(c, reset, reset, false, Event(p, wait, Failure));
      s := Step(c, reset, Event(p, wait, Failure));
    } else {
      var p := AboveAll(reset.workers.Keys);
      ResetStamp(c, reset);
      s := FirstProbe(c, reset, reset, false, p, wait);
    }
  }

  /** Right after a success, whether a late trip can still come: if and only if some worker has yet to store
      the count it has read, or holds a stored count that reaches the threshold. */
  lemma LateTripAheadExact(c: Config, reset: System)
    requires JustReset(c, reset)
    ensures LateTripAhead(c, reset) <==> exists v :: v in reset.workers && Holding(c, reset.workers[v].at)
  {
    ResetFacts(c, reset);
    if LateTripAhead(c, reset) {
      var s, w :| Leads(c, reset, s, false) && AboutToTrip(c, s, w) && Stale(reset, s.workers[w].at.chain);
      LateTripExact(c, reset, s, w);
    }
    if v :| v in reset.workers && Holding(c, reset.workers[v].at) {
      HolderTrips(c, reset, v);
    }
  }

  lemma HolderTrips(c: Config, reset: System, v: nat)
    requires JustReset(c, reset) && v in reset.workers && Holding(c, reset.workers[v].at)
    ensures LateTripAhead(c, reset)
  {
    ResetFacts(c, reset);
    assert Owns(reset.trail, reset.workers[v]);
    var chain := ChainOf(reset.workers[v].at);
    assert chain[|chain| - 1] in reset.trail.readAt;
    LeadsHere(c, reset, false);
    if reset.workers[v].at.WriteFailures? {
      var s := MakeAvailable(c, reset);
      Escalate(c, reset, s, v);
    } else if reset.workers[v].at.WriteLastFail? {
      var go := Event(v, 0, Failure);
      StepLeads(c, reset, reset, false, go);
      TripAhead(c, reset, Step(c, reset, go), v);
    } else {
      TripAhead(c, reset, reset, v);
    }
  }
}
