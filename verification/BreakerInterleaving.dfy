/** The circuit breaker of erp_core/orchestrator.py under concurrent workers.

    Any number of workers run protected calls at once.  One step of a worker is one read or one
    write of one cache key, so increments can be lost and writes can arrive late.  The trail and the
    chains of calls are auxiliary: no step looks at them to decide what to do. */
module BreakerInterleaving {
  import opened CircuitBreaker

  /** Where a worker stands in its call.  `n` is its local variable `failures`; `chain` lists the
      failing calls that count stands for, the worker's own call last. */
  datatype Point =
    | ReadState
    | ReadLastFail
    | WriteHalfOpen
    | RunFunction
    | WriteClosed
    | WriteZero
    | ReadFailures
    | WriteFailures(n: nat, chain: seq<nat>)
    | WriteLastFail(n: nat, chain: seq<nat>)
    | MaybeTrip(n: nat, chain: seq<nat>)

  datatype Worker = Worker(call: nat, at: Point)

  /** Auxiliary: what has happened so far. */
  datatype Trail = Trail(
    chain: seq<nat>,            // the failing calls behind the stored counter
    failed: set<nat>,           // the calls whose function raised
    readAt: map<nat, int>,      // when a failing call read the counter
    storedAt: map<nat, int>)    // when it stored its own count

  datatype System = System(
    keys: Keys,
    clock: int,
    workers: map<nat, Worker>,
    nextCall: nat,
    trail: Trail)

  /** Worker `worker` takes its next step `wait` seconds after the previous step of anyone.
      `outcome` matters only when the step is the end of the function. */
  datatype Event = Event(worker: nat, wait: nat, outcome: Outcome)

  const START := System(EMPTY, 0, map[], 0, Trail([], {}, map[], map[]))

  datatype Next = Goto(at: Point) | Finish

  datatype Effect = Effect(keys: Keys, trail: Trail, next: Next)

  /** What worker `w` does at time `now`. */
  function Act(c: Config, k: Keys, t: Trail, now: int, w: Worker, o: Outcome): Effect {
    match w.at
    case ReadState =>
      Effect(k, t, Goto(if Get(k.state, now, Closed) == Open then ReadLastFail else RunFunction))
    case ReadLastFail =>
      Effect(k, t, if Expired(c, k, now) then Goto(WriteHalfOpen) else Finish)
    case WriteHalfOpen =>
      Effect(k.(state := Stored(HalfOpen, Forever)), t, Goto(RunFunction))
    case RunFunction =>
      (match o
       case Success => Effect(k, t, Goto(WriteClosed))
       case Bypassed => Effect(k, t, Finish)
       case Failure => Effect(k, t.(failed := t.failed + {w.call}), Goto(ReadFailures)))
    case WriteClosed =>
      Effect(k.(state := Stored(Closed, Forever)), t, Goto(WriteZero))
    case WriteZero =>
      Effect(k.(failures := Stored(0, Forever)), t.(chain := []), Finish)
    case ReadFailures =>
      var chain := if Live(k.failures, now) then t.chain else [];
      Effect(k, t.(readAt := t.readAt[w.call := now]),
             Goto(WriteFailures(Get(k.failures, now, 0) + 1, chain + [w.call])))
    case WriteFailures(n, chain) =>
      Effect(k.(failures := Stored(n, Until(now + KEY_TTL))),
             t.(chain := chain, storedAt := t.storedAt[w.call := now]), Goto(WriteLastFail(n, chain)))
    case WriteLastFail(n, chain) =>
      Effect(k.(lastFail := Stored(now, Until(now + KEY_TTL))), t, Goto(MaybeTrip(n, chain)))
    case MaybeTrip(n, chain) =>
      Effect(if n >= c.threshold then k.(state := Stored(Open, Forever)) else k, t, Finish)
  }

  /** The action that step `e` consists of, if its worker exists. */
  function ActOf(c: Config, s: System, e: Event): Effect
    requires e.worker in s.workers
  {
    Act(c, s.keys, s.trail, s.clock + e.wait, s.workers[e.worker], e.outcome)
  }

  function Step(c: Config, s: System, e: Event): System {
    var now := s.clock + e.wait;
    if e.worker !in s.workers then
      System(s.keys, now, s.workers[e.worker := Worker(s.nextCall, ReadState)], s.nextCall + 1, s.trail)
    else
      var w, a := s.workers[e.worker], ActOf(c, s, e);
      var rest := match a.next
                  case Goto(p) => s.workers[e.worker := Worker(w.call, p)]
                  case Finish => s.workers - {e.worker};
      System(a.keys, now, rest, s.nextCall, a.trail)
  }

  function RunFrom(c: Config, s: System, events: seq<Event>): System {
    if events == [] then s
    else Step(c, RunFrom(c, s, events[..|events| - 1]), events[|events| - 1])
  }

  function Run(c: Config, events: seq<Event>): System {
    RunFrom(c, START, events)
  }

  // ---------- a worker left alone is the sequential breaker ----------

  ghost function Rank(p: Point): nat {
    match p
    case ReadState => 7
    case ReadLastFail => 6
    case WriteHalfOpen => 5
    case RunFunction => 4
    case ReadFailures => 3
    case WriteFailures(_, _) => 2
    case WriteClosed | WriteLastFail(_, _) => 1
    case WriteZero | MaybeTrip(_, _) => 0
  }

  /** Worker `w` runs on by itself until its call is over; the function ends at time `e.end`. */
  function Solo(c: Config, s: System, w: nat, e: Call): System
    decreases if w in s.workers then 1 + Rank(s.workers[w].at) else 0
  {
    if w !in s.workers then s
    else
      var wait := if s.workers[w].at == RunFunction && s.clock < e.end then e.end - s.clock else 0;
      Solo(c, Step(c, s, Event(w, wait, e.outcome)), w, e)
  }

  /** Without interference the small steps add up to one call of the sequential breaker. */
  lemma SoloIsSequential(c: Config, s: System, w: nat, e: Call)
    requires s.clock <= e.start <= e.end && w !in s.workers
    ensures var s' := Solo(c, Step(c, s, Event(w, e.start - s.clock, e.outcome)), w, e);
      s'.keys == AfterCall(c, s.keys, e) && s'.workers == s.workers
  {
    var go := Event(w, 0, e.outcome);
    var s1 := Step(c, s, Event(w, e.start - s.clock, e.outcome));
    var s2 := Step(c, s1, go);
    assert Solo(c, s1, w, e) == Solo(c, s2, w, e);
    if s2.workers[w].at == ReadLastFail {
      var s3 := Step(c, s2, go);
      assert Solo(c, s2, w, e) == Solo(c, s3, w, e);
      if w in s3.workers {
        var s4 := Step(c, s3, go);
        assert Solo(c, s3, w, e) == Solo(c, s4, w, e);
        SoloFunction(c, s4, w, e);
        assert s4.workers - {w} == s.workers;
      } else {
        assert s3.workers == s.workers;
      }
    } else {
      SoloFunction(c, s2, w, e);
      assert s2.workers - {w} == s.workers;
    }
  }

  /** The part of a lone call that starts with the function. */
  lemma SoloFunction(c: Config, s: System, w: nat, e: Call)
    requires w in s.workers && s.workers[w].at == RunFunction && s.clock <= e.end
    ensures Solo(c, s, w, e).keys == AfterOutcome(c, s.keys, e)
    ensures Solo(c, s, w, e).workers == s.workers - {w}
  {
    var s1 := Step(c, s, Event(w, e.end - s.clock, e.outcome));
    assert Solo(c, s, w, e) == Solo(c, s1, w, e);
    match e.outcome
    case Bypassed =>
    case Success => SoloSuccess(c, s1, w, e);
    case Failure => SoloFailure(c, s1, w, e);
  }

  lemma SoloSuccess(c: Config, s: System, w: nat, e: Call)
    requires w in s.workers && s.workers[w].at == WriteClosed
    ensures Solo(c, s, w, e).keys == AfterSuccess(s.keys)
    ensures Solo(c, s, w, e).workers == s.workers - {w}
  {
    var s1 := Step(c, s, Event(w, 0, e.outcome));
    var s2 := Step(c, s1, Event(w, 0, e.outcome));
    assert Solo(c, s, w, e) == Solo(c, s1, w, e) == Solo(c, s2, w, e) == s2;
    assert s2.workers == s.workers - {w};
  }

  lemma SoloFailure(c: Config, s: System, w: nat, e: Call)
    requires w in s.workers && s.workers[w].at == ReadFailures
    ensures Solo(c, s, w, e).keys == AfterFailure(c, s.keys, s.clock)
    ensures Solo(c, s, w, e).workers == s.workers - {w}
  {
    var go := Event(w, 0, e.outcome);
    var s1 := Step(c, s, go);
    var s2 := Step(c, s1, go);
    assert Solo(c, s, w, e) == Solo(c, s1, w, e) == Solo(c, s2, w, e);
    SoloStamp(c, s2, w, e);
  }

  lemma SoloStamp(c: Config, s: System, w: nat, e: Call)
    requires w in s.workers && s.workers[w].at.WriteLastFail?
    ensures var n := s.workers[w].at.n;
      Solo(c, s, w, e).keys ==
      s.keys.(state := if n >= c.threshold then Stored(Open, Forever) else s.keys.state,
              lastFail := Stored(s.clock, Until(s.clock + KEY_TTL)))
    ensures Solo(c, s, w, e).workers == s.workers - {w}
  {
    var go := Event(w, 0, e.outcome);
    var s1 := Step(c, s, go);
    var s2 := Step(c, s1, go);
    assert Solo(c, s, w, e) == Solo(c, s1, w, e) == Solo(c, s2, w, e) == s2;
    assert s2.workers == s.workers - {w};
  }

  // ---------- what every interleaving keeps ----------

  predicate Distinct(xs: seq<nat>) {
    forall i, j :: 0 <= i < j < |xs| ==> xs[i] != xs[j]
  }

  /** Call `xs[i + 1]` read the count that call `xs[i]` had stored, less than KEY_TTL after that. */
  predicate Link(t: Trail, xs: seq<nat>, i: nat)
    requires i + 1 < |xs|
  {
    && xs[i] in t.storedAt && xs[i + 1] in t.readAt
    && t.storedAt[xs[i]] <= t.readAt[xs[i + 1]] < t.storedAt[xs[i]] + KEY_TTL
  }

  /** `xs` names `n` distinct calls whose function raised, in the order they counted on. */
  predicate Witnesses(t: Trail, n: nat, xs: seq<nat>) {
    && |xs| == n
    && Distinct(xs)
    && (forall i :: 0 <= i < n ==> xs[i] in t.failed)
    && (forall i :: 0 <= i < n - 1 ==> Link(t, xs, i))
  }

  predicate CountOk(k: Key<nat>, t: Trail, now: int) {
    k.Stored? ==>
      && Witnesses(t, k.value, t.chain)
      && (forall i :: 0 <= i < k.value ==> t.chain[i] in t.storedAt)
      && (if k.value == 0 then k.life == Forever
          else k.life == Until(t.storedAt[t.chain[k.value - 1]] + KEY_TTL)
               && t.storedAt[t.chain[k.value - 1]] <= now)
  }

  /** The worker's count is witnessed; until it has stored it, its own call is new to the maps. */
  predicate WorkerOk(t: Trail, w: Worker) {
    match w.at
    case WriteFailures(n, chain) =>
      && Witnesses(t, n, chain) && n > 0 && chain[n - 1] == w.call && w.call !in t.storedAt
      && (forall i :: 0 <= i < n - 1 ==> chain[i] in t.storedAt)
    case WriteLastFail(n, chain) => Witnesses(t, n, chain)
    case MaybeTrip(n, chain) => Witnesses(t, n, chain)
    case ReadFailures => w.call in t.failed && w.call !in t.storedAt && w.call !in t.readAt
    case _ => w.call !in t.storedAt && w.call !in t.readAt
  }

  /** Calls in progress have different numbers, and no number of the future is in use. */
  ghost predicate CallsNumbered(s: System) {
    && (forall w :: w in s.workers ==> s.workers[w].call < s.nextCall)
    && (forall v, w :: v in s.workers && w in s.workers && v != w ==>
          s.workers[v].call != s.workers[w].call)
    && (forall x :: x in s.trail.failed || x in s.trail.readAt || x in s.trail.storedAt ==> x < s.nextCall)
  }

  ghost predicate Inv(c: Config, s: System) {
    && (s.keys.state == Stored(Open, Forever) ==> c.threshold <= |s.trail.failed|)
    && CountOk(s.keys.failures, s.trail, s.clock)
    && (forall w :: w in s.workers ==> WorkerOk(s.trail, s.workers[w]))
    && CallsNumbered(s)
  }

  /** A list of distinct elements of a set is no longer than the set. */
  lemma {:induction false} DistinctFits(xs: seq<nat>, all: set<nat>)
    requires Distinct(xs) && forall i :: 0 <= i < |xs| ==> xs[i] in all
    ensures |xs| <= |all|
  {
    if xs != [] {
      var last, rest := xs[|xs| - 1], xs[..|xs| - 1];
      DistinctFits(rest, all - {last});
    }
  }

  /** The trail only grows. */
  predicate Grows(t: Trail, t': Trail) {
    && t.failed <= t'.failed
    && (forall x :: x in t.readAt ==> x in t'.readAt && t'.readAt[x] == t.readAt[x])
    && (forall x :: x in t.storedAt ==> x in t'.storedAt && t'.storedAt[x] == t.storedAt[x])
  }

  lemma WitnessesKept(t: Trail, t': Trail, n: nat, xs: seq<nat>)
    requires Grows(t, t') && Witnesses(t, n, xs)
    ensures Witnesses(t', n, xs)
  {
    forall i | 0 <= i < n - 1 ensures Link(t', xs, i) {
      assert Link(t, xs, i);
    }
  }

  /** A worker stays in order while the trail grows without its own call. */
  lemma WorkerKept(t: Trail, t': Trail, w: Worker)
    requires Grows(t, t') && WorkerOk(t, w)
    requires w.call in t'.storedAt ==> w.call in t.storedAt
    requires w.call in t'.readAt ==> w.call in t.readAt
    ensures WorkerOk(t', w)
  {
    match w.at
    case WriteFailures(n, chain) => WitnessesKept(t, t', n, chain);
    case WriteLastFail(n, chain) => WitnessesKept(t, t', n, chain);
    case MaybeTrip(n, chain) => WitnessesKept(t, t', n, chain);
    case _ =>
  }

  /** Reading the counter: the worker's own call extends the chain behind it. */
  lemma ReadExtends(t: Trail, n: nat, xs: seq<nat>, call: nat, now: int)
    requires Witnesses(t, n, xs) && (forall i :: 0 <= i < n ==> xs[i] in t.storedAt)
    requires n > 0 ==> t.storedAt[xs[n - 1]] <= now < t.storedAt[xs[n - 1]] + KEY_TTL
    requires call in t.failed && call !in t.storedAt && call !in t.readAt
    ensures WorkerOk(t.(readAt := t.readAt[call := now]), Worker(call, WriteFailures(n + 1, xs + [call])))
  {
    var t', ys := t.(readAt := t.readAt[call := now]), xs + [call];
    WitnessesKept(t, t', n, xs);
    forall i | 0 <= i < n ensures Link(t', ys, i) {
      if i < n - 1 { assert Link(t', xs, i); }
    }
  }

  /** What one action of an orderly worker keeps. */
  ghost predicate Keeps(t: Trail, a: Effect, now: int, w: Worker) {
    && CountOk(a.keys.failures, a.trail, now)
    && (a.next.Goto? ==> WorkerOk(a.trail, Worker(w.call, a.next.at)))
    && Grows(t, a.trail)
  }

  lemma ReadingKeeps(c: Config, k: Keys, t: Trail, now: int, w: Worker, o: Outcome)
    requires CountOk(k.failures, t, now) && WorkerOk(t, w) && w.at == ReadFailures
    ensures Keeps(t, Act(c, k, t, now, w, o), now, w)
  {
    CountKept(k.failures, t, t.(readAt := t.readAt[w.call := now]), now);
    if Live(k.failures, now) {
      ReadExtends(t, k.failures.value, t.chain, w.call, now);
    } else {
      ReadExtends(t, 0, [], w.call, now);
    }
  }

  lemma CountKept(k: Key<nat>, t: Trail, t': Trail, now: int)
    requires CountOk(k, t, now) && Grows(t, t') && t'.chain == t.chain
    ensures CountOk(k, t', now)
  {
    if k.Stored? {
      WitnessesKept(t, t', k.value, t.chain);
    }
  }

  lemma StoringKeeps(c: Config, k: Keys, t: Trail, now: int, w: Worker, o: Outcome)
    requires WorkerOk(t, w) && w.at.WriteFailures?
    ensures Keeps(t, Act(c, k, t, now, w, o), now, w)
  {
    var n, chain := w.at.n, w.at.chain;
    WitnessesKept(t, t.(chain := chain, storedAt := t.storedAt[w.call := now]), n, chain);
  }

  lemma ActKeeps(c: Config, k: Keys, t: Trail, now: int, w: Worker, o: Outcome)
    requires CountOk(k.failures, t, now) && WorkerOk(t, w)
    ensures Keeps(t, Act(c, k, t, now, w, o), now, w)
  {
    match w.at
    case RunFunction =>
      CountKept(k.failures, t, t.(failed := t.failed + {w.call}), now);
    case ReadFailures =>
      ReadingKeeps(c, k, t, now, w, o);
    case WriteFailures(n, chain) =>
      StoringKeeps(c, k, t, now, w, o);
    case _ =>
  }

  lemma CountLater(k: Key<nat>, t: Trail, now: int, later: int)
    requires CountOk(k, t, now) && now <= later
    ensures CountOk(k, t, later)
  {
  }

  lemma StepperKept(c: Config, s: System, e: Event)
    requires e.worker in s.workers && WorkerOk(s.trail, s.workers[e.worker])
    requires CountOk(s.keys.failures, s.trail, s.clock)
    ensures Keeps(s.trail, ActOf(c, s, e), s.clock + e.wait, s.workers[e.worker])
  {
    CountLater(s.keys.failures, s.trail, s.clock, s.clock + e.wait);
    ActKeeps(c, s.keys, s.trail, s.clock + e.wait, s.workers[e.worker], e.outcome);
  }

  lemma InvKept(c: Config, s: System, e: Event)
    requires Inv(c, s)
    ensures Inv(c, Step(c, s, e))
  {
    OthersKept(c, s, e);
    NumbersKept(c, s, e);
    if e.worker in s.workers {
      StepperKept(c, s, e);
      OpenKept(c, s, e);
    } else {
      CountLater(s.keys.failures, s.trail, s.clock, s.clock + e.wait);
    }
  }

  lemma OpenKept(c: Config, s: System, e: Event)
    requires Inv(c, s) && e.worker in s.workers
    ensures var s' := Step(c, s, e);
      s'.keys.state == Stored(Open, Forever) ==> c.threshold <= |s'.trail.failed|
  {
    var w := s.workers[e.worker];
    assert WorkerOk(s.trail, w);
    if w.at.MaybeTrip? {
      DistinctFits(w.at.chain, s.trail.failed);
    }
    assert w.call in s.trail.failed ==> s.trail.failed + {w.call} == s.trail.failed;
  }

  lemma OthersKept(c: Config, s: System, e: Event)
    requires Inv(c, s)
    ensures var s' := Step(c, s, e);
      forall v :: v in s'.workers && v != e.worker ==> WorkerOk(s'.trail, s'.workers[v])
  {
    var s' := Step(c, s, e);
    if e.worker in s.workers {
      StepperKept(c, s, e);
      forall v | v in s'.workers && v != e.worker ensures WorkerOk(s'.trail, s'.workers[v]) {
        assert s'.workers[v] == s.workers[v];
        WorkerKept(s.trail, s'.trail, s.workers[v]);
      }
    }
  }

  /** What a step does to the call numbers. */
  lemma StepNumbers(c: Config, s: System, e: Event)
    requires e.worker in s.workers
    ensures var s', call := Step(c, s, e), s.workers[e.worker].call;
      && s'.nextCall == s.nextCall
      && (forall v :: v in s'.workers ==> v in s.workers && s'.workers[v].call == s.workers[v].call)
      && s'.trail.failed <= s.trail.failed + {call}
      && s'.trail.readAt.Keys <= s.trail.readAt.Keys + {call}
      && s'.trail.storedAt.Keys <= s.trail.storedAt.Keys + {call}
  {
  }

  lemma NumbersKept(c: Config, s: System, e: Event)
    requires Inv(c, s)
    ensures CallsNumbered(Step(c, s, e))
  {
    if e.worker in s.workers {
      var s', call := Step(c, s, e), s.workers[e.worker].call;
      StepNumbers(c, s, e);
      forall x | x in s'.trail.failed || x in s'.trail.readAt || x in s'.trail.storedAt
        ensures x < s'.nextCall
      {
        assert x == call || x in s.trail.failed || x in s.trail.readAt.Keys || x in s.trail.storedAt.Keys;
      }
    }
  }

  lemma {:induction false} RunKeepsInv(c: Config, events: seq<Event>)
    ensures Inv(c, Run(c, events))
  {
    if events != [] {
      assert Run(c, events) == Step(c, Run(c, events[..|events| - 1]), events[|events| - 1]);
      RunKeepsInv(c, events[..|events| - 1]);
      InvKept(c, Run(c, events[..|events| - 1]), events[|events| - 1]);
    }
  }

  /** Whatever the interleaving: a stored count of n stands for n distinct failing calls, each of
      which read what the one before it had stored while that was still alive. */
  lemma StoredCountIsWitnessed(c: Config, events: seq<Event>)
    ensures var s := Run(c, events);
      s.keys.failures.Stored? ==> exists xs :: Witnesses(s.trail, s.keys.failures.value, xs)
  {
    RunKeepsInv(c, events);
    var s := Run(c, events);
    assert s.keys.failures.Stored? ==> Witnesses(s.trail, s.keys.failures.value, s.trail.chain);
  }

  /** Whatever the interleaving: the step that writes OPEN is taken by a worker whose count links
      at least `threshold` distinct failing calls. */
  lemma OpenIsWitnessed(c: Config, events: seq<Event>, e: Event)
    requires var s := Run(c, events);
      s.keys.state != Stored(Open, Forever) && Step(c, s, e).keys.state == Stored(Open, Forever)
    ensures exists n: nat, xs :: n >= c.threshold && Witnesses(Run(c, events).trail, n, xs)
    ensures c.threshold <= |Run(c, events).trail.failed|
  {
    RunKeepsInv(c, events);
    var s := Run(c, events);
    var w := s.workers[e.worker];
    assert WorkerOk(s.trail, w);
    assert w.at.n >= c.threshold && Witnesses(s.trail, w.at.n, w.at.chain);
    DistinctFits(w.at.chain, s.trail.failed);
  }
}
