/** The per-agent circuit breaker of erp_core/orchestrator.py, for calls that do not overlap.

    The breaker keeps no state of its own: everything lives in three cache keys, two of which
    expire.  The class below is the code; `KeysAfter` is the same thing as a function of a run.
    Two independent definitions are then compared with it: `Streak`/`MayRun`, which only look at
    the calls that were executed, and `DocAfter`, the automaton of the class documentation. */
module CircuitBreaker {

  /** Lifetime, in seconds, of the failure counter and of the last-failure stamp. */
  const KEY_TTL: int := 3600

  datatype Circuit = Closed | Open | HalfOpen

  datatype Lifetime = Forever | Until(deadline: int)

  /** A cache key.  A key whose deadline has been reached reads as if it had never been set. */
  datatype Key<T> = Unset | Stored(value: T, life: Lifetime)

  predicate Live<T>(k: Key<T>, now: int) {
    k.Stored? && (k.life.Until? ==> now < k.life.deadline)
  }

  function Get<T>(k: Key<T>, now: int, default: T): T {
    if Live(k, now) then k.value else default
  }

  datatype Keys = Keys(state: Key<Circuit>, failures: Key<nat>, lastFail: Key<int>)

  const EMPTY := Keys(Unset, Unset, Unset)

  datatype Config = Config(threshold: int, recovery: int)

  /** How the protected function ends.  `Bypassed` is a CircuitOpenError raised inside it, which
      is passed on without being recorded. */
  datatype Outcome = Success | Failure | Bypassed

  datatype Call = Call(start: int, end: int, outcome: Outcome)

  // ---------- the effect of each operation on the keys ----------

  predicate Expired(c: Config, k: Keys, now: int) {
    now - Get(k.lastFail, now, 0) >= c.recovery
  }

  function Observed(c: Config, k: Keys, now: int): Circuit {
    var raw := Get(k.state, now, Closed);
    if raw == Open && Expired(c, k, now) then HalfOpen else raw
  }

  function AfterRead(c: Config, k: Keys, now: int): Keys {
    if Get(k.state, now, Closed) == Open && Expired(c, k, now)
    then k.(state := Stored(HalfOpen, Forever)) else k
  }

  function AfterSuccess(k: Keys): Keys {
    k.(state := Stored(Closed, Forever), failures := Stored(0, Forever))
  }

  function AfterFailure(c: Config, k: Keys, now: int): Keys {
    var n := Get(k.failures, now, 0) + 1;
    Keys(if n >= c.threshold then Stored(Open, Forever) else k.state,
         Stored(n, Until(now + KEY_TTL)),
         Stored(now, Until(now + KEY_TTL)))
  }

  function AfterOutcome(c: Config, k: Keys, e: Call): Keys {
    match e.outcome
    case Success => AfterSuccess(k)
    case Failure => AfterFailure(c, k, e.end)
    case Bypassed => k
  }

  predicate Runs(c: Config, k: Keys, e: Call) {
    Observed(c, k, e.start) != Open
  }

  function AfterCall(c: Config, k: Keys, e: Call): Keys {
    var k' := AfterRead(c, k, e.start);
    if Runs(c, k, e) then AfterOutcome(c, k', e) else k'
  }

  /** The breaker object.  Its fields are the three shared keys. */
  class CircuitBreaker {
    const failureThreshold: int
    const recoveryTimeout: int
    var stateKey: Key<Circuit>
    var failuresKey: Key<nat>
    var lastFailKey: Key<int>

    constructor (failureThreshold: int, recoveryTimeout: int)
      ensures Contents() == EMPTY && Settings() == Config(failureThreshold, recoveryTimeout)
    {
      this.failureThreshold := failureThreshold;
      this.recoveryTimeout := recoveryTimeout;
      stateKey, failuresKey, lastFailKey := Unset, Unset, Unset;
    }

    ghost function Contents(): Keys
      reads this
    {
      Keys(stateKey, failuresKey, lastFailKey)
    }

    ghost function Settings(): Config {
      Config(failureThreshold, recoveryTimeout)
    }

    method State(now: int) returns (s: Circuit)
      modifies this`stateKey
      ensures s == Observed(Settings(), old(Contents()), now)
      ensures Contents() == AfterRead(Settings(), old(Contents()), now)
    {
      var raw := Get(stateKey, now, Closed);
      if raw == Open {
        var lastFail := Get(lastFailKey, now, 0);
        if now - lastFail >= recoveryTimeout {
          stateKey := Stored(HalfOpen, Forever);
          return HalfOpen;
        }
        return Open;
      }
      return raw;
    }

    method RecordSuccess()
      modifies this
      ensures Contents() == AfterSuccess(old(Contents()))
    {
      stateKey := Stored(Closed, Forever);
      failuresKey := Stored(0, Forever);
    }

    method RecordFailure(now: int)
      modifies this
      ensures Contents() == AfterFailure(Settings(), old(Contents()), now)
    {
      var failures := Get(failuresKey, now, 0) + 1;
      failuresKey := Stored(failures, Until(now + KEY_TTL));
      lastFailKey := Stored(now, Until(now + KEY_TTL));
      if failures >= failureThreshold {
        stateKey := Stored(Open, Forever);
      }
    }

    /** `e` says when the call starts, when the function would end, and how.  `ran` is false when
        the caller gets a CircuitOpenError instead. */
    method Invoke(e: Call) returns (ran: bool)
      modifies this
      ensures ran == Runs(Settings(), old(Contents()), e)
      ensures Contents() == AfterCall(Settings(), old(Contents()), e)
    {
      var s := State(e.start);
      ran := s == Closed || s == HalfOpen;
      if ran {
        match e.outcome
        case Success => RecordSuccess();
        case Failure => RecordFailure(e.end);
        case Bypassed =>
      }
    }
  }

  // ---------- runs of calls that do not overlap ----------

  function KeysAfter(c: Config, run: seq<Call>): Keys {
    if run == [] then EMPTY
    else AfterCall(c, KeysAfter(c, run[..|run| - 1]), run[|run| - 1])
  }

  /** The calls of a run whose function was executed. */
  function Executed(c: Config, run: seq<Call>): seq<Call> {
    if run == [] then []
    else
      var before, e := run[..|run| - 1], run[|run| - 1];
      Executed(c, before) + if Runs(c, KeysAfter(c, before), e) then [e] else []
  }

  /** A method that plays a whole run on a fresh breaker computes `KeysAfter` and `Executed`. */
  method Play(c: Config, run: seq<Call>) returns (b: CircuitBreaker, executed: seq<Call>)
    ensures fresh(b) && b.Settings() == c
    ensures b.Contents() == KeysAfter(c, run)
    ensures executed == Executed(c, run)
  {
    b := new CircuitBreaker(c.threshold, c.recovery);
    executed := [];
    for i := 0 to |run|
      invariant fresh(b) && b.Settings() == c
      invariant b.Contents() == KeysAfter(c, run[..i])
      invariant executed == Executed(c, run[..i])
    {
      assert run[..i + 1][..i] == run[..i];
      var ran := b.Invoke(run[i]);
      if ran {
        executed := executed + [run[i]];
      }
    }
    assert run[..|run|] == run;
  }

  // ---------- what the history of executed calls says ----------

  /** The number of failures at the end of `x` with no success between them, each less than
      KEY_TTL after the previous one, the last less than KEY_TTL before `now`. */
  function Streak(x: seq<Call>, now: int): nat {
    if x == [] then 0
    else
      var last, before := x[|x| - 1], x[..|x| - 1];
      match last.outcome
      case Success => 0
      case Bypassed => Streak(before, now)
      case Failure => if now < last.end + KEY_TTL then Streak(before, last.end) + 1 else 0
  }

  /** The last executed call failed and brought its streak up to the threshold. */
  predicate Trips(c: Config, x: seq<Call>) {
    |x| > 0 && x[|x| - 1].outcome == Failure
    && Streak(x[..|x| - 1], x[|x| - 1].end) + 1 >= c.threshold
  }

  /** Whether a call that starts at `now` may run: not right after a tripping failure, until the
      recovery timeout has passed or the stamp of that failure has expired. */
  predicate MayRun(c: Config, x: seq<Call>, now: int) {
    Trips(c, x) ==>
      var t := x[|x| - 1].end;
      if now < t + KEY_TTL then now >= t + c.recovery else now >= c.recovery
  }

  /** The executed calls, computed from the history alone. */
  function Admitted(c: Config, run: seq<Call>): seq<Call> {
    if run == [] then []
    else
      var x, e := Admitted(c, run[..|run| - 1]), run[|run| - 1];
      x + if MayRun(c, x, e.start) then [e] else []
  }

  /** The time of the latest failure of `x` with no success after it. */
  function OpenFailure(x: seq<Call>): Lifetime {
    if x == [] then Forever
    else
      match x[|x| - 1].outcome
      case Success => Forever
      case Bypassed => OpenFailure(x[..|x| - 1])
      case Failure => Until(x[|x| - 1].end + KEY_TTL)
  }

  /** What the three keys hold, said in terms of the executed calls. */
  ghost predicate Tells(c: Config, k: Keys, x: seq<Call>) {
    && (forall now :: Get(k.failures, now, 0) == Streak(x, now))
    && (k.failures.Stored? ==> k.failures.life == OpenFailure(x))
    && (k.failures.Unset? ==> OpenFailure(x) == Forever)
    && (k.state.Stored? ==> k.state.life == Forever)
    && (k.state == Stored(Open, Forever) <==> Trips(c, x))
    && (Trips(c, x) ==> k.lastFail == Stored(x[|x| - 1].end, Until(x[|x| - 1].end + KEY_TTL)))
  }

  lemma CallTells(c: Config, k: Keys, x: seq<Call>, e: Call)
    requires Tells(c, k, x)
    ensures Runs(c, k, e) <==> MayRun(c, x, e.start)
    ensures Runs(c, k, e) ==> Tells(c, AfterCall(c, k, e), x + [e])
    ensures !Runs(c, k, e) ==> AfterCall(c, k, e) == k
  {
    assert (x + [e])[..|x|] == x;
  }

  /** For every run of non-overlapping calls the keys refine the history: the executed calls are
      the admitted ones, the live counter is the trailing streak, and the state key is OPEN
      exactly after a tripping failure. */
  lemma {:induction false} KeysRefineHistory(c: Config, run: seq<Call>)
    ensures Executed(c, run) == Admitted(c, run)
    ensures Tells(c, KeysAfter(c, run), Executed(c, run))
  {
    if run != [] {
      var before, e := run[..|run| - 1], run[|run| - 1];
      KeysRefineHistory(c, before);
      CallTells(c, KeysAfter(c, before), Executed(c, before), e);
      assert Executed(c, before) + [] == Executed(c, before);
    }
  }

  /** On a clock that counts from the epoch, an isolated function is not run again before
      min(recovery timeout, 3600) seconds have passed since the tripping failure, and any call
      from then on runs it. */
  lemma IsolationEnds(c: Config, run: seq<Call>, e: Call)
    requires Trips(c, Executed(c, run))
    requires 0 <= Executed(c, run)[|Executed(c, run)| - 1].end && c.recovery <= e.start
    ensures var t := Executed(c, run)[|Executed(c, run)| - 1].end;
      Runs(c, KeysAfter(c, run), e) <==>
      e.start >= t + if c.recovery < 3600 then c.recovery else 3600
  {
    KeysRefineHistory(c, run);
    CallTells(c, KeysAfter(c, run), Executed(c, run), e);
  }

  /** A failure that is executed writes OPEN exactly when it completes the threshold; if it does
      not, the state key keeps what the availability check left there. */
  lemma FailureOpensExactlyAtThreshold(c: Config, run: seq<Call>, e: Call)
    requires e.outcome == Failure && Runs(c, KeysAfter(c, run), e)
    ensures var k, k' := KeysAfter(c, run), AfterCall(c, KeysAfter(c, run), e);
      && (k'.state == Stored(Open, Forever) <==> Streak(Executed(c, run), e.end) + 1 >= c.threshold)
      && (k'.state != Stored(Open, Forever) ==> k'.state == AfterRead(c, k, e.start).state)
  {
    KeysRefineHistory(c, run);
    var x := Executed(c, run);
    CallTells(c, KeysAfter(c, run), x, e);
    assert (x + [e])[..|x|] == x;
  }

  // ---------- the documented automaton ----------

  /** The automaton of the class documentation.  `Isolated` is OPEN, with the time it opened. */
  datatype Doc = Counting(failures: nat) | Isolated(since: int) | Probing

  predicate DocRuns(c: Config, d: Doc, e: Call) {
    d.Isolated? ==> e.start - d.since >= c.recovery
  }

  function DocCall(c: Config, d: Doc, e: Call): Doc {
    if !DocRuns(c, d, e) then d
    else
      match e.outcome
      case Success => Counting(0)
      case Bypassed => if d.Isolated? then Probing else d
      case Failure =>
        if d.Counting? && d.failures + 1 < c.threshold then Counting(d.failures + 1)
        else Isolated(e.end)
  }

  function DocAfter(c: Config, run: seq<Call>): Doc {
    if run == [] then Counting(0)
    else DocCall(c, DocAfter(c, run[..|run| - 1]), run[|run| - 1])
  }

  /** No streak is cut by an expiry: each executed failure comes less than KEY_TTL after the
      latest failure before it, if no success lies between the two. */
  predicate Unbroken(x: seq<Call>) {
    x == [] ||
    (var last, before := x[|x| - 1], x[..|x| - 1];
     && Unbroken(before)
     && (last.outcome == Failure && OpenFailure(before).Until? ==>
           last.end < OpenFailure(before).deadline))
  }

  /** The keys stand for the documented state. */
  predicate Stands(c: Config, k: Keys, d: Doc) {
    var n := if k.failures.Stored? then k.failures.value else 0;
    match d
    case Counting(m) =>
      && k.state in {Unset, Stored(Closed, Forever)}
      && n == m
    case Isolated(t) =>
      && k.state == Stored(Open, Forever)
      && k.lastFail == Stored(t, Until(t + KEY_TTL))
      && n >= c.threshold
    case Probing =>
      && k.state == Stored(HalfOpen, Forever)
      && n >= c.threshold
  }

  lemma CallStands(c: Config, k: Keys, d: Doc, x: seq<Call>, e: Call)
    requires c.recovery <= KEY_TTL && c.recovery <= e.start
    requires Tells(c, k, x) && Stands(c, k, d)
    requires Runs(c, k, e) ==> c.threshold <= 1 || Unbroken(x + [e])
    ensures Runs(c, k, e) <==> DocRuns(c, d, e)
    ensures Stands(c, AfterCall(c, k, e), DocCall(c, d, e))
  {
    assert (x + [e])[..|x|] == x;
    match e.outcome
    case Success =>
    case Bypassed =>
    case Failure =>
  }

  /** While no streak is cut (or one failure is enough to trip), and for a recovery timeout of at
      most KEY_TTL, the code makes the same decisions as the documented automaton and its keys
      stand for the same state. */
  lemma {:induction false} FollowsDocumentation(c: Config, run: seq<Call>)
    requires c.recovery <= KEY_TTL
    requires c.threshold <= 1 || Unbroken(Executed(c, run))
    requires forall i :: 0 <= i < |run| ==> c.recovery <= run[i].start
    ensures Stands(c, KeysAfter(c, run), DocAfter(c, run))
    ensures forall e: Call :: c.recovery <= e.start ==>
      (Runs(c, KeysAfter(c, run), e) <==> DocRuns(c, DocAfter(c, run), e))
  {
    if run != [] {
      var before, e := run[..|run| - 1], run[|run| - 1];
      var x, x' := Executed(c, before), Executed(c, run);
      assert x' == x + if Runs(c, KeysAfter(c, before), e) then [e] else [];
      assert x' != x ==> x'[..|x'| - 1] == x;
      FollowsDocumentation(c, before);
      KeysRefineHistory(c, before);
      CallStands(c, KeysAfter(c, before), DocAfter(c, before), x, e);
    }
  }

  /** Exactness: from a run that followed the documentation, an executed failure keeps following
      it if and only if it does not come KEY_TTL or more after the failure before it, or one
      failure is enough to trip. */
  lemma CutStreakExact(c: Config, run: seq<Call>, e: Call)
    requires c.recovery <= KEY_TTL && Unbroken(Executed(c, run))
    requires forall i :: 0 <= i < |run| ==> c.recovery <= run[i].start
    requires c.recovery <= e.start && e.outcome == Failure && Runs(c, KeysAfter(c, run), e)
    ensures Stands(c, KeysAfter(c, run + [e]), DocAfter(c, run + [e]))
      <==> (var f := OpenFailure(Executed(c, run));
            c.threshold <= 1 || (f.Until? ==> e.end < f.deadline))
  {
    assert (run + [e])[..|run|] == run;
    var k, d, x := KeysAfter(c, run), DocAfter(c, run), Executed(c, run);
    FollowsDocumentation(c, run);
    KeysRefineHistory(c, run);
    StreakIsPositive(c, run);
    if c.threshold > 1 && OpenFailure(x).Until? && OpenFailure(x).deadline <= e.end {
      CutFails(c, k, d, e);
    } else {
      assert (x + [e])[..|x|] == x;
      CallStands(c, k, d, x, e);
    }
  }

  /** A threshold of two and failures at 100 s and 4000 s: the documentation isolates, the code does not. */
  lemma CutStreakHappens()
    ensures var c, run := Config(2, 60), [Call(100, 100, Failure), Call(4000, 4000, Failure)];
      !Stands(c, KeysAfter(c, run), DocAfter(c, run))
  {
    var c, first, e := Config(2, 60), Call(100, 100, Failure), Call(4000, 4000, Failure);
    var run := [first];
    assert run[..0] == [] && (run + [e])[..1] == run && run + [e] == [first, e];
    assert KeysAfter(c, run) == AfterCall(c, EMPTY, first);
    assert Executed(c, run) == [first];
    CutStreakExact(c, run, e);
  }

  lemma CutFails(c: Config, k: Keys, d: Doc, e: Call)
    requires c.threshold > 1 && Stands(c, k, d) && e.outcome == Failure && DocRuns(c, d, e)
    requires k.failures.Stored? && k.failures.value >= 1 && !Live(k.failures, e.end)
    requires Runs(c, k, e)
    ensures !Stands(c, AfterCall(c, k, e), DocCall(c, d, e))
  {
    assert AfterCall(c, k, e).failures.value == 1;
  }

  /** A counter behind an open failure is at least 1. */
  lemma {:induction false} StreakIsPositive(c: Config, run: seq<Call>)
    ensures OpenFailure(Executed(c, run)).Until? ==>
      KeysAfter(c, run).failures.Stored? && KeysAfter(c, run).failures.value >= 1
  {
    KeysRefineHistory(c, run);
    if run != [] {
      var before, e := run[..|run| - 1], run[|run| - 1];
      KeysRefineHistory(c, before);
      StreakIsPositive(c, before);
      var x := Executed(c, before);
      assert (x + [e])[..|x|] == x;
    }
  }

  /** The difference is visible: after a cut streak there is a continuation on which the code
      executes a call that the documented automaton refuses. */
  lemma CutStreakIsVisible(c: Config, run: seq<Call>, e: Call) returns (more: seq<Call>, probe: Call)
    requires 2 <= c.threshold && 0 < c.recovery <= KEY_TTL && Unbroken(Executed(c, run))
    requires forall i :: 0 <= i < |run| ==> c.recovery <= run[i].start
    requires c.recovery <= e.start <= e.end && e.outcome == Failure && Runs(c, KeysAfter(c, run), e)
    requires OpenFailure(Executed(c, run)).Until? && OpenFailure(Executed(c, run)).deadline <= e.end
    ensures probe.start == e.end && forall i :: 0 <= i < |more| ==> more[i] == Call(e.end, e.end, Failure)
    ensures Runs(c, KeysAfter(c, run + [e] + more), probe)
    ensures !DocRuns(c, DocAfter(c, run + [e] + more), probe)
  {
    assert (run + [e])[..|run|] == run;
    FollowsDocumentation(c, run);
    KeysRefineHistory(c, run);
    StreakIsPositive(c, run);
    more, probe := Overtake(c, run + [e], e.end, 1);
  }

  /** While the documented counter is ahead of the code's, quick failures isolate it first. */
  lemma {:induction false} Overtake(c: Config, run: seq<Call>, t: int, n: nat)
    returns (more: seq<Call>, probe: Call)
    requires 0 < c.recovery <= KEY_TTL && c.recovery <= t
    requires var k, d := KeysAfter(c, run), DocAfter(c, run);
      && Get(k.state, t, Closed) != Open
      && k.failures == Stored(n, Until(t + KEY_TTL))
      && (d == Isolated(t) || (d.Counting? && n < d.failures < c.threshold))
    ensures probe.start == t && forall i :: 0 <= i < |more| ==> more[i] == Call(t, t, Failure)
    ensures Runs(c, KeysAfter(c, run + more), probe)
    ensures !DocRuns(c, DocAfter(c, run + more), probe)
    decreases c.threshold - n
  {
    if DocAfter(c, run).Isolated? {
      more, probe := [], Call(t, t, Success);
      assert run + [] == run;
    } else {
      var e := Call(t, t, Failure);
      assert (run + [e])[..|run|] == run;
      var rest;
      rest, probe := Overtake(c, run + [e], t, n + 1);
      more := [e] + rest;
      assert run + more == run + [e] + rest;
    }
  }
}
