/** Building runs of the interleaved circuit breaker, a few steps of one worker at a time. */
module BreakerRuns {
  import opened CircuitBreaker
  import opened BreakerInterleaving
  import opened BreakerCounting

  /** The next step of `e` zeroes the counter: the second half of recording a success. */
  predicate Zeroes(s: System, e: Event) { e.worker in s.workers && s.workers[e.worker].at == WriteZero }

  ghost predicate NoReset(c: Config, s: System, events: seq<Event>) {
    events == [] ||
    (NoReset(c, s, events[..|events| - 1]) &&
     !Zeroes(RunFrom(c, s, events[..|events| - 1]), events[|events| - 1]))
  }

  /** `s'` comes after `s`; without `resets`, with no counter reset in between. */
  ghost predicate Leads(c: Config, s: System, s': System, resets: bool) {
    exists events :: RunFrom(c, s, events) == s' && (resets || NoReset(c, s, events))
  }

  lemma LeadsHere(c: Config, s: System, resets: bool)
    ensures Leads(c, s, s, resets)
  {
    assert RunFrom(c, s, []) == s && NoReset(c, s, []);
  }

  lemma StepLeads(c: Config, from: System, s: System, resets: bool, e: Event)
    requires Leads(c, from, s, resets) && (resets || !Zeroes(s, e))
    ensures Leads(c, from, Step(c, s, e), resets)
  {
    var events :| RunFrom(c, from, events) == s && (resets || NoReset(c, from, events));
    var more := events + [e];
    assert more[..|more| - 1] == events;
    assert RunFrom(c, from, more) == Step(c, s, e);
    assert resets || NoReset(c, from, more);
  }

  /** Two steps of a new worker: up to its function. */
  lemma Begin(c: Config, from: System, s: System, resets: bool, w: nat) returns (s': System)
    requires Leads(c, from, s, resets) && w !in s.workers && Get(s.keys.state, s.clock, Closed) != Open
    ensures Leads(c, from, s', resets)
    ensures s' == System(s.keys, s.clock, s.workers[w := Worker(s.nextCall, RunFunction)], s.nextCall + 1, s.trail)
  {
    var go := Event(w, 0, Failure);
    StepLeads(c, from, s, resets, go);
    s' := Step(c, s, go);
    StepLeads(c, from, s', resets, go);
    s' := Step(c, s', go);
    assert s'.workers == s.workers[w := Worker(s.nextCall, RunFunction)];
  }

  /** One more step, and its function has failed. */
  lemma Fail(c: Config, from: System, s: System, resets: bool, w: nat) returns (s': System)
    requires Leads(c, from, s, resets) && w !in s.workers && Get(s.keys.state, s.clock, Closed) != Open
    ensures Leads(c, from, s', resets)
    ensures s' == System(s.keys, s.clock, s.workers[w := Worker(s.nextCall, ReadFailures)],
                         s.nextCall + 1, s.trail.(failed := s.trail.failed + {s.nextCall}))
  {
    s' := Begin(c, from, s, resets, w);
    StepLeads(c, from, s', resets, Event(w, 0, Failure));
    s' := Step(c, s', Event(w, 0, Failure));
    assert s'.workers == s.workers[w := Worker(s.nextCall, ReadFailures)];
  }

  /** One more step: the worker has read the counter. */
  lemma FailAndRead(c: Config, from: System, s: System, resets: bool, w: nat) returns (s': System)
    requires Leads(c, from, s, resets) && w !in s.workers && Get(s.keys.state, s.clock, Closed) != Open
    ensures Leads(c, from, s', resets)
    ensures var t, call := s.trail, s.nextCall;
      s' == System(s.keys, s.clock,
        s.workers[w := Worker(call, WriteFailures(Get(s.keys.failures, s.clock, 0) + 1,
                                                  LiveChain(s, s.clock) + [call]))],
        call + 1, t.(failed := t.failed + {call}, readAt := t.readAt[call := s.clock]))
  {
    s' := Fail(c, from, s, resets, w);
    StepLeads(c, from, s', resets, Event(w, 0, Failure));
    s' := Step(c, s', Event(w, 0, Failure));
  }

  /** The two steps that store the count and the time. */
  lemma Store(c: Config, from: System, s: System, resets: bool, w: nat) returns (s': System)
    requires Leads(c, from, s, resets) && w in s.workers && s.workers[w].at.WriteFailures?
    ensures Leads(c, from, s', resets)
    ensures var at, t := s.workers[w].at, s.trail;
      s' == System(
        Keys(s.keys.state, Stored(at.n, Until(s.clock + KEY_TTL)), Stored(s.clock, Until(s.clock + KEY_TTL))),
        s.clock, s.workers[w := Worker(s.workers[w].call, MaybeTrip(at.n, at.chain))], s.nextCall,
        t.(chain := at.chain, storedAt := t.storedAt[s.workers[w].call := s.clock]))
  {
    var go := Event(w, 0, Failure);
    StepLeads(c, from, s, resets, go);
    s' := Step(c, s, go);
    StepLeads(c, from, s', resets, go);
    s' := Step(c, s', go);
  }

  /** And the last step, which trips if need be. */
  lemma StoreAndTrip(c: Config, from: System, s: System, resets: bool, w: nat) returns (s': System)
    requires Leads(c, from, s, resets) && w in s.workers && s.workers[w].at.WriteFailures?
    ensures Leads(c, from, s', resets)
    ensures var at, t := s.workers[w].at, s.trail;
      s' == System(
        Keys(if at.n >= c.threshold then Stored(Open, Forever) else s.keys.state,
             Stored(at.n, Until(s.clock + KEY_TTL)), Stored(s.clock, Until(s.clock + KEY_TTL))),
        s.clock, s.workers - {w}, s.nextCall,
        t.(chain := at.chain, storedAt := t.storedAt[s.workers[w].call := s.clock]))
  {
    s' := Store(c, from, s, resets, w);
    StepLeads(c, from, s', resets, Event(w, 0, Failure));
    s' := Step(c, s', Event(w, 0, Failure));
    assert s'.workers == s.workers - {w};
  }

  /** A run with a disturbed count: two calls fail, nothing ever succeeds, and a threshold of two is not
      reached, because both workers read the counter before either stores its own count. */
  lemma LostIncrement() returns (s: System)
    ensures Leads(Config(2, 60), START, s, false)
    ensures s.workers == map[] && s.trail.failed == {0, 1}
    ensures s.keys.state == Unset && Get(s.keys.failures, s.clock, 0) == 1
  {
    var c := Config(2, 60);
    LeadsHere(c, START, false);
    s := FailAndRead(c, START, START, false, 1);
    s := FailAndRead(c, START, s, false, 2);
    s := StoreAndTrip(c, START, s, false, 1);
    s := StoreAndTrip(c, START, s, false, 2);
  }
}
