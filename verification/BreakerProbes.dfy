/** Probes of the circuit breaker under concurrency: how many run at once, and when one breaks into an
    isolation that has just begun (erp_core/orchestrator.py). */
module BreakerProbes {
  import opened CircuitBreaker
  import opened BreakerInterleaving
  import opened BreakerCounting
  import opened BreakerRuns

  lemma {:induction false} MoreProbes(c: Config, from: System, s: System, ids: seq<nat>) returns (s': System)
    requires Leads(c, from, s, false) && s.keys.state == Stored(HalfOpen, Forever)
    requires Distinct(ids) && forall i :: 0 <= i < |ids| ==> ids[i] !in s.workers
    ensures Leads(c, from, s', false) && s'.keys == s.keys
    ensures forall w :: w in s.workers ==> w in s'.workers && s'.workers[w] == s.workers[w]
    ensures forall i :: 0 <= i < |ids| ==> ids[i] in s'.workers && s'.workers[ids[i]].at == RunFunction
    decreases |ids|
  {
    if ids == [] {
      s' := s;
    } else {
      var first := Begin(c, from, s, false, ids[0]);
      var rest := ids[1..];
      RestDistinct(ids);
      s' := MoreProbes(c, from, first, rest);
      assert s'.workers[ids[0]] == first.workers[ids[0]];
      forall i | 0 <= i < |ids| ensures ids[i] in s'.workers && s'.workers[ids[i]].at == RunFunction {
        if i > 0 { assert ids[i] == rest[i - 1]; }
      }
    }
  }

  lemma RestDistinct(ids: seq<nat>)
    requires Distinct(ids) && ids != []
    ensures Distinct(ids[1..]) && forall i :: 0 <= i < |ids| - 1 ==> ids[1..][i] == ids[i + 1] && ids[1..][i] != ids[0]
  {
  }

  /** Two steps of a new worker that starts `wait` seconds later and finds the circuit open. */
  lemma Look(c: Config, from: System, s: System, resets: bool, w: nat, wait: nat) returns (s': System)
    requires Leads(c, from, s, resets) && Get(s.keys.state, s.clock + wait, Closed) == Open && w !in s.workers
    ensures Leads(c, from, s', resets)
    ensures s' == System(s.keys, s.clock + wait, s.workers[w := Worker(s.nextCall, ReadLastFail)],
                         s.nextCall + 1, s.trail)
  {
    StepLeads(c, from, s, resets, Event(w, wait, Failure));
    s' := Step(c, s, Event(w, wait, Failure));
    StepLeads(c, from, s', resets, Event(w, 0, Failure));
    s' := Step(c, s', Event(w, 0, Failure));
    assert s'.workers == s.workers[w := Worker(s.nextCall, ReadLastFail)];
  }

  /** Its next step, when it finds the timeout passed. */
  lemma LookAgain(c: Config, from: System, s: System, resets: bool, w: nat, wait: nat) returns (s': System)
    requires Leads(c, from, s, resets) && Get(s.keys.state, s.clock + wait, Closed) == Open && w !in s.workers
    requires Expired(c, s.keys, s.clock + wait)
    ensures Leads(c, from, s', resets)
    ensures s' == System(s.keys, s.clock + wait, s.workers[w := Worker(s.nextCall, WriteHalfOpen)],
                         s.nextCall + 1, s.trail)
  {
    s' := Look(c, from, s, resets, w, wait);
    StepLeads(c, from, s', resets, Event(w, 0, Failure));
    s' := Step(c, s', Event(w, 0, Failure));
    assert s'.workers == s.workers[w := Worker(s.nextCall, WriteHalfOpen)];
  }

  /** And the one that writes HALF_OPEN. */
  lemma FirstProbe(c: Config, from: System, s: System, resets: bool, w: nat, wait: nat) returns (s': System)
    requires Leads(c, from, s, resets) && Get(s.keys.state, s.clock + wait, Closed) == Open && w !in s.workers
    requires Expired(c, s.keys, s.clock + wait)
    ensures Leads(c, from, s', resets)
    ensures s' == System(s.keys.(state := Stored(HalfOpen, Forever)), s.clock + wait,
                         s.workers[w := Worker(s.nextCall, RunFunction)], s.nextCall + 1, s.trail)
  {
    s' := LookAgain(c, from, s, resets, w, wait);
    StepLeads(c, from, s', resets, Event(w, 0, Failure));
    s' := Step(c, s', Event(w, 0, Failure));
    assert s'.workers == s.workers[w := Worker(s.nextCall, RunFunction)];
  }

  /** The documentation allows one probe.  Once the timeout has passed, any number of workers can be
      running the function in HALF_OPEN at the same time. */
  lemma ManyProbes(c: Config, s: System, ids: seq<nat>) returns (s': System)
    requires Get(s.keys.state, s.clock, Closed) == Open && Expired(c, s.keys, s.clock)
    requires ids != [] && Distinct(ids) && forall i :: 0 <= i < |ids| ==> ids[i] !in s.workers
    ensures Leads(c, s, s', false) && s'.keys == s.keys.(state := Stored(HalfOpen, Forever))
    ensures forall i :: 0 <= i < |ids| ==> ids[i] in s'.workers && s'.workers[ids[i]].at == RunFunction
  {
    LeadsHere(c, s, false);
    var first := FirstProbe(c, s, s, false, ids[0], 0);
    var rest := ids[1..];
    RestDistinct(ids);
    s' := MoreProbes(c, s, first, rest);
    assert s'.workers[ids[0]] == first.workers[ids[0]];
    forall i | 0 <= i < |ids| ensures ids[i] in s'.workers && s'.workers[ids[i]].at == RunFunction {
      if i > 0 { assert ids[i] == rest[i - 1]; }
    }
  }

  predicate Stamps(c: Config, events: seq<Event>, k: nat)
    requires k < |events|
  {
    Acts(c, events, k) && Actor(c, events, k).at.WriteLastFail?
  }

  /** At step `r` a worker finds the timeout passed, and at step `k`, its next one, it writes HALF_OPEN. */
  predicate Probes(c: Config, events: seq<Event>, r: nat, k: nat) {
    && r < k < |events| && events[r].worker == events[k].worker
    && Acts(c, events, r) && Actor(c, events, r).at == ReadLastFail
    && Expired(c, At(c, events, r).keys, Time(c, events, r))
    && (forall j :: r < j < k ==> events[j].worker != events[k].worker)
  }

  lemma {:induction false} StampSane(c: Config, events: seq<Event>, k: nat)
    requires k <= |events|
    ensures var s := At(c, events, k);
      0 <= s.clock && (s.keys.lastFail.Stored? ==>
        0 <= s.keys.lastFail.value <= s.clock && s.keys.lastFail.life == Until(s.keys.lastFail.value + KEY_TTL))
    decreases k
  {
    if k > 0 {
      StampSane(c, events, k - 1);
      AtStep(c, events, k - 1);
    }
  }

  lemma {:induction false} StampKept(c: Config, events: seq<Event>, r: nat, k: nat)
    requires r <= k <= |events| && forall j :: r <= j < k ==> !Stamps(c, events, j)
    ensures At(c, events, k).keys.lastFail == At(c, events, r).keys.lastFail
    decreases k
  {
    if r < k {
      StampKept(c, events, r, k - 1);
      assert !Stamps(c, events, k - 1);
      AtStep(c, events, k - 1);
    }
  }

  lemma NewStamp(c: Config, events: seq<Event>, k: nat)
    requires k < |events| && Stamps(c, events, k)
    ensures At(c, events, k + 1).keys.lastFail == Stored(Time(c, events, k), Until(Time(c, events, k) + KEY_TTL))
    ensures forall i :: 0 <= i <= k ==> Time(c, events, i) <= Time(c, events, k)
  {
    AtStep(c, events, k);
    forall i | 0 <= i <= k ensures Time(c, events, i) <= Time(c, events, k) { TimeRises(c, events, i, k); }
  }

  /** The latest of some stamps is the one that stands. */
  lemma {:induction false} LastStamp(c: Config, events: seq<Event>, i: nat, k: nat) returns (j: nat)
    requires i < k <= |events| && Stamps(c, events, i)
    ensures i <= j < k && Stamps(c, events, j)
    ensures At(c, events, k).keys.lastFail == Stored(Time(c, events, j), Until(Time(c, events, j) + KEY_TTL))
    ensures forall h :: 0 <= h < k && Stamps(c, events, h) ==> Time(c, events, h) <= Time(c, events, j)
    decreases k
  {
    if Stamps(c, events, k - 1) {
      j := k - 1;
      NewStamp(c, events, j);
    } else {
      j := LastStamp(c, events, i, k - 1);
      AtStep(c, events, k - 1);
    }
  }

  lemma ProbeWrites(c: Config, events: seq<Event>, r: nat, k: nat)
    requires Probes(c, events, r, k)
    ensures Acts(c, events, k) && Actor(c, events, k).at == WriteHalfOpen
    ensures At(c, events, k + 1).keys.state == Stored(HalfOpen, Forever)
    ensures Time(c, events, r) <= Time(c, events, k)
  {
    AtStep(c, events, r);
    WorkerWaits(c, events, r + 1, k, events[k].worker);
    AtStep(c, events, k);
    ClockRises(c, events, r + 1, k);
  }

  /** Some failure was stamped after step `r`, less than min(recovery timeout, 3600) s before step `k`. */
  predicate StampedSince(c: Config, events: seq<Event>, r: nat, k: nat)
    requires r <= k < |events|
  {
    exists j :: r < j < k && Stamps(c, events, j) &&
      Time(c, events, k) - Time(c, events, j) < (if c.recovery < 3600 then c.recovery else 3600)
  }

  /** The timeout that the worker found passed is running again if and only if a failure has been stamped
      since. */
  lemma TimeoutRunsAgain(c: Config, events: seq<Event>, r: nat, k: nat)
    requires Probes(c, events, r, k)
    ensures !Expired(c, At(c, events, k).keys, Time(c, events, k)) <==> StampedSince(c, events, r, k)
  {
    ProbeWrites(c, events, r, k);
    StampSane(c, events, r);
    StampSane(c, events, k);
    AtStep(c, events, r);
    if i :| r + 1 <= i < k && Stamps(c, events, i) {
      var j := LastStamp(c, events, i, k);
    } else {
      StampKept(c, events, r + 1, k);
    }
  }

  /** Step `k` writes OPEN. */
  predicate TripsAt(c: Config, events: seq<Event>, k: nat)
    requires k < |events|
  {
    Acts(c, events, k) && Actor(c, events, k).at.MaybeTrip? && Actor(c, events, k).at.n >= c.threshold
  }

  /** Step `k` writes the state key. */
  predicate WritesState(c: Config, events: seq<Event>, k: nat)
    requires k < |events|
  {
    || TripsAt(c, events, k)
    || (Acts(c, events, k) && (Actor(c, events, k).at == WriteHalfOpen || Actor(c, events, k).at == WriteClosed))
  }

  /** The last write of the state key before step `k` was a trip. */
  predicate Tripped(c: Config, events: seq<Event>, k: nat)
    requires k <= |events|
  {
    exists j :: 0 <= j < k && TripsAt(c, events, j) && forall i :: j < i < k ==> !WritesState(c, events, i)
  }

  lemma StateStep(c: Config, events: seq<Event>, k: nat)
    requires k < |events|
    ensures var s, s' := At(c, events, k).keys.state, At(c, events, k + 1).keys.state;
      && (TripsAt(c, events, k) ==> s' == Stored(Open, Forever))
      && (WritesState(c, events, k) && !TripsAt(c, events, k) ==>
            s' == Stored(HalfOpen, Forever) || s' == Stored(Closed, Forever))
      && (!WritesState(c, events, k) ==> s' == s)
  {
    AtStep(c, events, k);
  }

  lemma {:induction false} OpenIsTripped(c: Config, events: seq<Event>, k: nat)
    requires k <= |events|
    ensures At(c, events, k).keys.state == Stored(Open, Forever) <==> Tripped(c, events, k)
    decreases k
  {
    if k > 0 {
      OpenIsTripped(c, events, k - 1);
      StateStep(c, events, k - 1);
    }
  }

  /** Exactly when a probe breaks into a fresh isolation, that is, overwrites an OPEN whose timeout is still
      running: the last write of the state before it was a trip, and since the worker looked a failure has
      been stamped less than min(recovery timeout, 3600) seconds ago. */
  lemma LateProbeExact(c: Config, events: seq<Event>, r: nat, k: nat)
    requires Probes(c, events, r, k)
    ensures At(c, events, k + 1).keys.state == Stored(HalfOpen, Forever)
    ensures At(c, events, k).keys.state == Stored(Open, Forever) &&
            !Expired(c, At(c, events, k).keys, Time(c, events, k))
      <==> Tripped(c, events, k) && StampedSince(c, events, r, k)
  {
    ProbeWrites(c, events, r, k);
    OpenIsTripped(c, events, k);
    TimeoutRunsAgain(c, events, r, k);
  }

  /** Open since 0 s; at 60 s worker 1 has found the timeout passed. */
  lemma FoundPassed() returns (s: System)
    ensures Leads(Config(1, 60), START, s, true) && s.clock == 60 && s.keys.state == Stored(Open, Forever)
    ensures Expired(Config(1, 60), s.keys, 60) && s.workers.Keys == {1} && s.workers[1].at == WriteHalfOpen
  {
    var c := Config(1, 60);
    LeadsHere(c, START, true);
    s := FailAndRead(c, START, START, true, 1);
    s := StoreAndTrip(c, START, s, true, 1);
    s := LookAgain(c, START, s, true, 1, 60);
  }

  /** The probe of worker 2 fails and the circuit opens anew; then worker 1, which had found the old timeout
      passed, writes HALF_OPEN into it and runs the function. */
  lemma LateProbe() returns (s: System, s': System)
    ensures var c := Config(1, 60);
      && Leads(c, START, s, true) && s.keys.state == Stored(Open, Forever) && !Expired(c, s.keys, s.clock)
      && s' == Step(c, s, Event(1, 0, Failure)) && s'.keys.state == Stored(HalfOpen, Forever)
      && 1 in s'.workers && s'.workers[1].at == RunFunction
  {
    var c := Config(1, 60);
    s := FoundPassed();
    s := FirstProbe(c, START, s, true, 2, 0);
    s := FailRunning(c, START, s, true, 2);
    s := StoreAndTrip(c, START, s, true, 2);
    s' := Step(c, s, Event(1, 0, Failure));
  }

  /** A running function fails and its worker reads the counter. */
  lemma FailRunning(c: Config, from: System, s: System, resets: bool, w: nat) returns (s': System)
    requires Leads(c, from, s, resets) && w in s.workers && s.workers[w].at == RunFunction
    ensures Leads(c, from, s', resets)
    ensures var t, call := s.trail, s.workers[w].call;
      s' == System(s.keys, s.clock,
        s.workers[w := Worker(call, WriteFailures(Get(s.keys.failures, s.clock, 0) + 1,
                                                  LiveChain(s, s.clock) + [call]))],
        s.nextCall, t.(failed := t.failed + {call}, readAt := t.readAt[call := s.clock]))
  {
    StepLeads(c, from, s, resets, Event(w, 0, Failure));
    s' := Step(c, s, Event(w, 0, Failure));
    StepLeads(c, from, s', resets, Event(w, 0, Failure));
    s' := Step(c, s', Event(w, 0, Failure));
  }
}
