/** Lost increments of the circuit breaker's failure counter: workers read it and write it back in two
    separate commands (erp_core/orchestrator.py).  When an increment is lost, and when none is. */
module BreakerCounting {
  import opened CircuitBreaker
  import opened BreakerInterleaving

  // ---------- the states of a run ----------

  function At(c: Config, events: seq<Event>, k: nat): System
    requires k <= |events|
  {
    Run(c, events[..k])
  }

  /** The time of step `k`. */
  function Time(c: Config, events: seq<Event>, k: nat): int
    requires k < |events|
  {
    At(c, events, k).clock + events[k].wait
  }

  /** Step `k` is taken by a worker in the middle of its call. */
  predicate Acts(c: Config, events: seq<Event>, k: nat)
    requires k < |events|
  {
    events[k].worker in At(c, events, k).workers
  }

  function Actor(c: Config, events: seq<Event>, k: nat): Worker
    requires k < |events| && Acts(c, events, k)
  {
    At(c, events, k).workers[events[k].worker]
  }

  lemma AtStep(c: Config, events: seq<Event>, k: nat)
    requires k < |events|
    ensures At(c, events, k + 1) == Step(c, At(c, events, k), events[k])
    ensures At(c, events, k + 1).clock == Time(c, events, k)
  {
    assert events[..k + 1][..k] == events[..k];
  }

  lemma InvAt(c: Config, events: seq<Event>, k: nat)
    requires k <= |events|
    ensures Inv(c, At(c, events, k))
  {
    RunKeepsInv(c, events[..k]);
  }

  lemma {:induction false} ClockRises(c: Config, events: seq<Event>, j: nat, k: nat)
    requires j <= k <= |events|
    ensures At(c, events, j).clock <= At(c, events, k).clock
    decreases k
  {
    if j < k {
      ClockRises(c, events, j, k - 1);
      AtStep(c, events, k - 1);
    }
  }

  lemma TimeRises(c: Config, events: seq<Event>, j: nat, k: nat)
    requires j <= k < |events|
    ensures Time(c, events, j) <= Time(c, events, k)
  {
    AtStep(c, events, j);
    if j < k { ClockRises(c, events, j + 1, k); }
  }

  /** A worker that takes no step stays where it is. */
  lemma {:induction false} WorkerWaits(c: Config, events: seq<Event>, j: nat, k: nat, w: nat)
    requires j <= k <= |events| && w in At(c, events, j).workers
    requires forall i :: j <= i < k ==> events[i].worker != w
    ensures w in At(c, events, k).workers && At(c, events, k).workers[w] == At(c, events, j).workers[w]
    decreases k
  {
    if j < k {
      WorkerWaits(c, events, j, k - 1, w);
      AtStep(c, events, k - 1);
    }
  }

  // ---------- lost increments ----------

  /** Step `k` writes the failure counter. */
  predicate WritesCounter(c: Config, events: seq<Event>, k: nat)
    requires k < |events|
  {
    Acts(c, events, k) && (Actor(c, events, k).at.WriteFailures? || Actor(c, events, k).at == WriteZero)
  }

  /** At step `r` a worker reads the counter, and at step `k`, its next one, it stores its own count. */
  predicate Counts(c: Config, events: seq<Event>, r: nat, k: nat) {
    && r < k < |events| && events[r].worker == events[k].worker
    && Acts(c, events, r) && Actor(c, events, r).at == ReadFailures
    && (forall j :: r < j < k ==> events[j].worker != events[k].worker)
  }

  /** The calls behind the counter as a reader sees it. */
  function LiveChain(s: System, now: int): seq<nat> {
    if Live(s.keys.failures, now) then s.trail.chain else []
  }

  /** What is stored at step `k` is one more than what the counter holds at that moment. */
  predicate CountsOn(c: Config, events: seq<Event>, k: nat)
    requires k < |events|
  {
    && Acts(c, events, k) && Actor(c, events, k).at.WriteFailures?
    && Actor(c, events, k).at.chain == LiveChain(At(c, events, k), Time(c, events, k)) + [Actor(c, events, k).call]
  }

  predicate Quiet(c: Config, events: seq<Event>, r: nat, k: nat)
    requires r <= k <= |events|
  {
    forall j :: r < j < k ==> !WritesCounter(c, events, j)
  }

  function CountAt(c: Config, events: seq<Event>, k: nat): nat
    requires k < |events|
  {
    Get(At(c, events, k).keys.failures, Time(c, events, k), 0)
  }

  /** Nobody writes the counter between the read and the store and it does not expire, or it reads 0 at
      both moments. */
  predicate Undisturbed(c: Config, events: seq<Event>, r: nat, k: nat)
    requires r <= k < |events|
  {
    || (Quiet(c, events, r, k) && (CountAt(c, events, r) > 0 ==> CountAt(c, events, k) > 0))
    || CountAt(c, events, r) == CountAt(c, events, k) == 0
  }

  lemma LiveCount(c: Config, events: seq<Event>, k: nat)
    requires k < |events|
    ensures |LiveChain(At(c, events, k), Time(c, events, k))| == CountAt(c, events, k)
    ensures forall x :: x in LiveChain(At(c, events, k), Time(c, events, k)) ==> x in At(c, events, k).trail.storedAt
  {
    InvAt(c, events, k);
  }

  /** Only counter writes change the counter; other steps leave it alone. */
  lemma CounterStep(c: Config, events: seq<Event>, k: nat)
    requires k < |events|
    ensures var s, s' := At(c, events, k), At(c, events, k + 1);
      && (!WritesCounter(c, events, k) ==> s'.keys.failures == s.keys.failures && s'.trail.chain == s.trail.chain)
      && s.trail.storedAt.Keys <= s'.trail.storedAt.Keys
  {
    AtStep(c, events, k);
  }

  lemma {:induction false} QuietCounter(c: Config, events: seq<Event>, r: nat, k: nat)
    requires r < k <= |events| && Quiet(c, events, r, k) && !WritesCounter(c, events, r)
    ensures At(c, events, k).keys.failures == At(c, events, r).keys.failures
    ensures At(c, events, k).trail.chain == At(c, events, r).trail.chain
    decreases k
  {
    CounterStep(c, events, k - 1);
    if r < k - 1 { QuietCounter(c, events, r, k - 1); }
  }

  lemma {:induction false} StoresStay(c: Config, events: seq<Event>, j: nat, k: nat)
    requires j <= k <= |events|
    ensures At(c, events, j).trail.storedAt.Keys <= At(c, events, k).trail.storedAt.Keys
    decreases k
  {
    if j < k {
      StoresStay(c, events, j, k - 1);
      CounterStep(c, events, k - 1);
    }
  }

  /** After a counter write the last call behind the counter had not stored before. */
  lemma WriterIsNew(c: Config, events: seq<Event>, r: nat, j: nat)
    requires r <= j < |events| && WritesCounter(c, events, j)
    ensures var chain := At(c, events, j + 1).trail.chain;
      chain == [] || chain[|chain| - 1] !in At(c, events, r).trail.storedAt
  {
    InvAt(c, events, j);
    StoresStay(c, events, r, j);
    AtStep(c, events, j);
    assert WorkerOk(At(c, events, j).trail, Actor(c, events, j));
  }

  lemma {:induction false} DisturbedCounter(c: Config, events: seq<Event>, r: nat, k: nat)
    requires r < k <= |events| && !Quiet(c, events, r, k)
    ensures var chain := At(c, events, k).trail.chain;
      chain == [] || chain[|chain| - 1] !in At(c, events, r).trail.storedAt
    decreases k
  {
    if WritesCounter(c, events, k - 1) {
      WriterIsNew(c, events, r, k - 1);
    } else {
      CounterStep(c, events, k - 1);
      DisturbedCounter(c, events, r, k - 1);
    }
  }

  lemma StoredIsRead(c: Config, events: seq<Event>, r: nat, k: nat)
    requires Counts(c, events, r, k)
    ensures Acts(c, events, k) && Actor(c, events, k).at.WriteFailures?
    ensures Actor(c, events, k).at.chain ==
            LiveChain(At(c, events, r), Time(c, events, r)) + [Actor(c, events, k).call]
  {
    AtStep(c, events, r);
    WorkerWaits(c, events, r + 1, k, events[k].worker);
  }

  /** Exactly when an increment is not lost: a store counts on from the counter if and only if the
      worker was undisturbed since its read. */
  lemma CountsOnExact(c: Config, events: seq<Event>, r: nat, k: nat)
    requires Counts(c, events, r, k)
    ensures CountsOn(c, events, k) <==> Undisturbed(c, events, r, k)
  {
    var base, live := LiveChain(At(c, events, r), Time(c, events, r)), LiveChain(At(c, events, k), Time(c, events, k));
    StoredIsRead(c, events, r, k);
    LiveCount(c, events, r);
    LiveCount(c, events, k);
    assert CountsOn(c, events, k) <==> base == live by {
      var call := Actor(c, events, k).call;
      assert (base + [call])[..|base|] == base && (live + [call])[..|live|] == live;
    }
    if Quiet(c, events, r, k) {
      QuietCounter(c, events, r, k);
      AtStep(c, events, r);
      ClockRises(c, events, r + 1, k);
    } else {
      DisturbedCounter(c, events, r, k);
    }
  }

  /** The calls that an atomic increment would have counted: those stored since the counter was last
      zeroed or had expired. */
  function Ideal(c: Config, events: seq<Event>): seq<nat> {
    if events == [] then []
    else
      var before, e := events[..|events| - 1], events[|events| - 1];
      var s, sofar := Run(c, before), Ideal(c, before);
      if e.worker !in s.workers then sofar
      else match s.workers[e.worker].at
        case WriteZero => []
        case WriteFailures(_, _) =>
          (if Live(s.keys.failures, s.clock + e.wait) then sofar else []) + [s.workers[e.worker].call]
        case _ => sofar
  }

  lemma IdealStep(c: Config, events: seq<Event>, k: nat)
    requires k < |events|
    ensures At(c, events, k).trail.chain == Ideal(c, events[..k]) ==>
      (At(c, events, k + 1).trail.chain == Ideal(c, events[..k + 1]) <==>
       (Acts(c, events, k) && Actor(c, events, k).at.WriteFailures? ==> CountsOn(c, events, k)))
  {
    AtStep(c, events, k);
    assert events[..k + 1][..k] == events[..k];
  }

  /** A worker about to store has read. */
  lemma {:induction false} ReadBeforeStore(c: Config, events: seq<Event>, k: nat, w: nat) returns (r: nat)
    requires k <= |events| && w in At(c, events, k).workers && At(c, events, k).workers[w].at.WriteFailures?
    ensures r < k && events[r].worker == w && Acts(c, events, r) && Actor(c, events, r).at == ReadFailures
    ensures forall j :: r < j < k ==> events[j].worker != w
    decreases k
  {
    assert k > 0;
    AtStep(c, events, k - 1);
    if events[k - 1].worker == w {
      r := k - 1;
    } else {
      r := ReadBeforeStore(c, events, k - 1, w);
    }
  }

  ghost predicate AlwaysIdeal(c: Config, events: seq<Event>) {
    forall k: nat :: k <= |events| ==> At(c, events, k).trail.chain == Ideal(c, events[..k])
  }

  ghost predicate AllUndisturbed(c: Config, events: seq<Event>) {
    forall r: nat, k: nat :: Counts(c, events, r, k) ==> Undisturbed(c, events, r, k)
  }

  lemma {:induction false} UndisturbedIsIdeal(c: Config, events: seq<Event>, k: nat)
    requires k <= |events| && AllUndisturbed(c, events)
    ensures At(c, events, k).trail.chain == Ideal(c, events[..k])
    decreases k
  {
    if k > 0 {
      UndisturbedIsIdeal(c, events, k - 1);
      if Acts(c, events, k - 1) && Actor(c, events, k - 1).at.WriteFailures? {
        var r := ReadBeforeStore(c, events, k - 1, events[k - 1].worker);
        assert Counts(c, events, r, k - 1);
        CountsOnExact(c, events, r, k - 1);
      }
      IdealStep(c, events, k - 1);
    }
  }

  /** Over a whole run the counter counts as if increments were atomic, if and only if every worker was
      undisturbed between its read and its store. */
  lemma NoIncrementLostExact(c: Config, events: seq<Event>)
    ensures AlwaysIdeal(c, events) <==> AllUndisturbed(c, events)
  {
    if AllUndisturbed(c, events) {
      forall k: nat | k <= |events| ensures At(c, events, k).trail.chain == Ideal(c, events[..k]) {
        UndisturbedIsIdeal(c, events, k);
      }
    }
    if AlwaysIdeal(c, events) {
      forall r: nat, k: nat | Counts(c, events, r, k) ensures Undisturbed(c, events, r, k) {
        StoredIsRead(c, events, r, k);
        assert At(c, events, k).trail.chain == Ideal(c, events[..k]);
        assert At(c, events, k + 1).trail.chain == Ideal(c, events[..k + 1]);
        IdealStep(c, events, k);
        CountsOnExact(c, events, r, k);
      }
    }
  }

  /** Then the stored value is the number of failing calls counted since the last reset or expiry. */
  lemma UndisturbedCount(c: Config, events: seq<Event>)
    requires AllUndisturbed(c, events)
    ensures Run(c, events).keys.failures.Stored? ==>
      Run(c, events).keys.failures.value == |Ideal(c, events)|
  {
    assert events[..|events|] == events;
    UndisturbedIsIdeal(c, events, |events|);
    InvAt(c, events, |events|);
  }
}
